/** The parser against the grammar: what a syntax tree looks like is accepted and read as what it stands for. */
module JsonAccepts {
  import opened Numbers
  import opened JsonReader
  import opened JsonGrammar

  // ---------------------------------------------------------------- places

  /** The text stands at p. */
  predicate Sits(t: Text, p: nat, r: Text) {
    p + |r| <= |t| && forall i :: 0 <= i < |r| ==> t[p + i] == r[i]
  }

  lemma SitsSplit(t: Text, p: nat, a: Text, b: Text)
    ensures Sits(t, p, a + b) <==> Sits(t, p, a) && Sits(t, p + |a|, b)
  {
    if Sits(t, p, a + b) {
      forall i | 0 <= i < |a|
        ensures t[p + i] == a[i]
      {
        assert (a + b)[i] == a[i];
      }
      forall i | 0 <= i < |b|
        ensures t[p + |a| + i] == b[i]
      {
        assert (a + b)[|a| + i] == b[i];
      }
    }
    if Sits(t, p, a) && Sits(t, p + |a|, b) {
      forall i | 0 <= i < |a + b|
        ensures t[p + i] == (a + b)[i]
      {
        if i >= |a| {
          assert t[p + |a| + (i - |a|)] == b[i - |a|];
        }
      }
    }
  }

  lemma SitsFirst(t: Text, p: nat, r: Text)
    requires Sits(t, p, r) && r != []
    ensures Is(t, p, r[0])
  {
    assert t[p + 0] == r[0];
  }

  lemma {:induction false} WsReads(t: Text, p: nat, ws: Text)
    requires AllWs(ws) && Sits(t, p, ws) && (p + |ws| < |t| ==> !IsWs(t[p + |ws|]))
    ensures SkipWs(t, p) == p + |ws|
    decreases |ws|
  {
    if ws != [] {
      assert t[p] == ws[0] && Sits(t, p + 1, ws[1..]) by {
        assert ws == ws[..1] + ws[1..];
        SitsSplit(t, p, ws[..1], ws[1..]);
      }
      WsReads(t, p + 1, ws[1..]);
    }
  }

  lemma {:induction false} DigitsRead(t: Text, p: nat, digits: Text)
    requires (forall i :: 0 <= i < |digits| ==> IsDigit(digits[i])) && Sits(t, p, digits) && !DigitAt(t, p + |digits|)
    ensures Digits(t, p) == p + |digits|
    decreases |digits|
  {
    if digits != [] {
      assert t[p] == digits[0] && Sits(t, p + 1, digits[1..]) by {
        assert digits == digits[..1] + digits[1..];
        SitsSplit(t, p, digits[..1], digits[1..]);
      }
      DigitsRead(t, p + 1, digits[1..]);
    }
  }

  lemma SomeDigitsRead(t: Text, p: nat, digits: Text)
    requires AllDigits(digits) && Sits(t, p, digits) && !DigitAt(t, p + |digits|)
    ensures SomeDigits(t, p) == At((), p + |digits|)
  {
    assert t[p + 0] == digits[0];
    DigitsRead(t, p, digits);
  }

  // ---------------------------------------------------------------- numbers

  /** Nothing that would go on with a number. */
  predicate Ends(t: Text, p: nat) {
    !DigitAt(t, p) && !Is(t, p, Code('.')) && !Is(t, p, Code('e')) && !Is(t, p, Code('E'))
  }

  /** The sign, which comes before the digits of an exponent or not at all. */
  lemma SignReads(t: Text, p: nat, n: Num)
    requires NumFits(n) && n.exp && Sits(t, p, Ascii(n.sign) + n.exponent)
    ensures (if Is(t, p, 0x2B) || Is(t, p, 0x2D) then p + 1 else p) == p + |n.sign|
    ensures Sits(t, p + |n.sign|, n.exponent)
  {
    SitsSplit(t, p, Ascii(n.sign), n.exponent);
    assert t[p + |n.sign| + 0] == n.exponent[0];
    if n.sign != "" {
      assert t[p + 0] == Ascii(n.sign)[0];
      assert Ascii(n.sign)[0] == Code(n.sign[0]);
    }
  }

  lemma ExponentReads(t: Text, p: nat, n: Num)
    requires NumFits(n) && Sits(t, p, ExponentText(n)) && Ends(t, p + |ExponentText(n)|)
    ensures Exponent(t, p) == At((), p + |ExponentText(n)|)
    ensures !DigitAt(t, p) && !Is(t, p, 0x2E)
  {
    if n.exp {
      SitsSplit(t, p, [Code(n.e)], Ascii(n.sign) + n.exponent);
      assert t[p + 0] == [Code(n.e)][0];
      SignReads(t, p + 1, n);
      SomeDigitsRead(t, p + 1 + |n.sign|, n.exponent);
    }
  }

  lemma FractionReads(t: Text, p: nat, n: Num)
    requires NumFits(n) && Sits(t, p, FractionText(n) + ExponentText(n)) && Ends(t, p + |FractionText(n) + ExponentText(n)|)
    ensures Fraction(t, p) == At((), p + |FractionText(n)|)
    ensures Exponent(t, p + |FractionText(n)|) == At((), p + |FractionText(n) + ExponentText(n)|)
    ensures !DigitAt(t, p)
  {
    SitsSplit(t, p, FractionText(n), ExponentText(n));
    ExponentReads(t, p + |FractionText(n)|, n);
    if n.dot {
      SitsSplit(t, p, Ascii("."), n.fraction);
      assert t[p + 0] == Ascii(".")[0];
      SomeDigitsRead(t, p + 1, n.fraction);
    }
  }

  lemma SitsIs(t: Text, p: nat, r: Text)
    requires Sits(t, p, r)
    ensures t[p..p + |r|] == r
  {}

  /** The sign and the whole part. */
  lemma WholeReads(t: Text, p: nat, n: Num, rest: Text)
    requires NumFits(n) && Sits(t, p, (if n.neg then Ascii("-") else []) + (n.whole + rest))
    requires !DigitAt(t, p + (if n.neg then 1 else 0) + |n.whole|)
    ensures var q := if Is(t, p, 0x2D) then p + 1 else p;
            SomeDigits(t, q) == At((), p + (if n.neg then 1 else 0) + |n.whole|)
    ensures p < |t| && (t[p] == 0x2D || IsDigit(t[p]))
    ensures Sits(t, p + (if n.neg then 1 else 0) + |n.whole|, rest)
  {
    hide SomeDigits;
    var minus := if n.neg then Ascii("-") else [];
    SitsSplit(t, p, minus, n.whole + rest);
    SitsSplit(t, p + |minus|, n.whole, rest);
    assert t[p + |minus| + 0] == n.whole[0];
    if n.neg {
      assert t[p + 0] == minus[0];
    }
    SomeDigitsRead(t, p + |minus|, n.whole);
  }

  lemma NumberReads(t: Text, p: nat, n: Num)
    requires NumFits(n) && Sits(t, p, NumText(n)) && Ends(t, p + |NumText(n)|)
    ensures NumberAt(t, p) == At(NumText(n), p + |NumText(n)|)
    ensures p < |t| && (t[p] == 0x2D || IsDigit(t[p]))
  {
    hide FractionText, ExponentText, SomeDigits, Fraction, Exponent, NumFits, Ends, Ascii;
    var rest := FractionText(n) + ExponentText(n);
    var q := p + (if n.neg then 1 else 0) + |n.whole|;
    SitsIs(t, p, NumText(n));
    RestSits(t, p, n, rest);
    FractionReads(t, q, n);
    WholeReads(t, p, n, rest);
  }

  lemma RestSits(t: Text, p: nat, n: Num, rest: Text)
    requires Sits(t, p, (if n.neg then Ascii("-") else []) + (n.whole + rest))
    ensures Sits(t, p + (if n.neg then 1 else 0) + |n.whole|, rest)
    ensures |(if n.neg then Ascii("-") else []) + (n.whole + rest)| == (if n.neg then 1 else 0) + |n.whole| + |rest|
  {
    hide Sits;
    SitsSplit(t, p, if n.neg then Ascii("-") else [], n.whole + rest);
    SitsSplit(t, p + (if n.neg then 1 else 0), n.whole, rest);
  }

  // ---------------------------------------------------------------- strings

  lemma DigitReads(d: Digit)
    requires DigitFits(d)
    ensures HexDigit(DigitText(d)) == d.value
  {}

  lemma ChReads(t: Text, p: nat, ch: Ch)
    requires ChFits(ch) && Sits(t, p, ChText(ch))
    ensures OneChar(t, p) == At(ChBytes(ch), p + |ChText(ch)|) && !Is(t, p, QUOTE)
  {
    hide Utf8, HexDigit, DigitText;
    var e := ChText(ch);
    assert t[p + 0] == e[0];
    match ch {
      case Plain(_) =>
      case Short(letter) =>
        assert t[p + 1] == e[1];
        ShortReads(letter);
      case Hex(a, b, c, d) =>
        assert t[p + 1] == e[1] && t[p + 2] == e[2] && t[p + 3] == e[3] && t[p + 4] == e[4] && t[p + 5] == e[5];
        DigitReads(a);
        DigitReads(b);
        DigitReads(c);
        DigitReads(d);
    }
  }

  lemma ShortReads(letter: char)
    requires ChFits(Short(letter))
    ensures ShortEscape(Code(letter)) >= 0 && ChBytes(Short(letter)) == [ShortEscape(Code(letter))]
  {}

  lemma {:induction false} ChsRead(t: Text, p: nat, chs: seq<Ch>)
    requires ChsFit(chs) && Sits(t, p, ChsText(chs) + Ascii("\""))
    ensures StringRest(t, p) == At(ChsBytes(chs), p + |ChsText(chs)| + 1)
    decreases |chs|
  {
    hide OneChar, ChText, ChBytes, ChFits;
    if chs == [] {
      assert t[p + 0] == (ChsText(chs) + Ascii("\""))[0];
    } else {
      var first, rest := ChText(chs[0]), ChsText(chs[1..]) + Ascii("\"");
      assert ChsText(chs) + Ascii("\"") == first + rest;
      SitsSplit(t, p, first, rest);
      ChReads(t, p, chs[0]);
      ChsRead(t, p + |first|, chs[1..]);
    }
  }

  lemma StringReads(t: Text, p: nat, chs: seq<Ch>)
    requires ChsFit(chs) && Sits(t, p, StringText(chs))
    ensures StringAt(t, p) == At(ChsBytes(chs), p + |StringText(chs)|)
    ensures Is(t, p, QUOTE)
  {
    hide ChsText, ChsBytes, StringRest, ChsFit;
    var rest := ChsText(chs) + Ascii("\"");
    SitsSplit(t, p, Ascii("\""), rest);
    assert t[p + 0] == StringText(chs)[0];
    ChsRead(t, p + 1, chs);
  }

  // ---------------------------------------------------------------- values

  /** A value begins with none of the characters that go between values. */
  predicate Opens(c: Octet) { !IsWs(c) && c != CLOSE_BRACKET && c != CLOSE_BRACE && c != COMMA && c != COLON }

  lemma ShownOpens(s: Syntax)
    requires Fits(s)
    ensures Opens(Shown(s)[0])
  {
    if s.SNumber? {
      var n := s.n;
      assert n.whole[0] == (n.whole + (FractionText(n) + ExponentText(n)))[0];
    }
  }

  /** The value at p is read as what the tree stands for, and ends where it does. */
  predicate Reads(r: Found<Value>, start: nat, end: nat, meaning: Json) {
    r.At? && r.value.spanStart == start && r.end == end && Bare(r.value) == meaning
  }

  lemma WordReads(t: Text, p: nat, s: Syntax)
    requires (s.SNull? || s.STrue? || s.SFalse?) && Sits(t, p, Shown(s))
    ensures var r := ScalarAt(t, p); r.At? && r.end == p + |Shown(s)| && BareContent(r.value) == Means(s)
    ensures t[p] != OPEN_BRACE && t[p] != OPEN_BRACKET
  {
    var word := Shown(s);
    assert t[p + 0] == word[0];
    assert word == (if s.SNull? then NULL else if s.STrue? then TRUE else FALSE);
    assert t[p..p + |word|] == word;
  }

  lemma SkipAgain(t: Text, p: nat)
    ensures SkipWs(t, SkipWs(t, p)) == SkipWs(t, p)
  {}

  predicate IsScalar(s: Syntax) { !s.SArray? && !s.SObject? }

  lemma ScalarReads(t: Text, p: nat, s: Syntax)
    requires IsScalar(s) && Fits(s) && Sits(t, p, Shown(s)) && Ends(t, p + |Shown(s)|)
    ensures p < |t| && t[p] != OPEN_BRACE && t[p] != OPEN_BRACKET
    ensures var r := ScalarAt(t, p); r.At? && r.end == p + |Shown(s)| && BareContent(r.value) == Means(s)
  {
    hide NumText, StringText, NumFits, ChsFit, StringAt, NumberAt, ChsBytes;
    match s {
      case SNumber(n) => NumberReads(t, p, n);
      case SString(chs) => StringReads(t, p, chs);
      case _ => WordReads(t, p, s);
    }
  }

  lemma ScalarValue(t: Text, p: nat, depth: nat)
    requires depth < MAX_DEPTH && SkipWs(t, p) == p < |t| && t[p] != OPEN_BRACE && t[p] != OPEN_BRACKET
    ensures var (c, v) := (ScalarAt(t, p), ValueAt(t, p, depth));
            c.At? ==> v.At? && v.value == Value(c.value, p, c.end) && v.end == c.end
  {
    hide ScalarAt;
  }

  lemma {:induction false} SyntaxReads(t: Text, p: nat, s: Syntax, depth: nat)
    requires Fits(s) && Sits(t, p, Shown(s)) && Ends(t, p + |Shown(s)|) && depth + Levels(s) <= MAX_DEPTH
    ensures SkipWs(t, p) == p && Reads(ValueAt(t, p, depth), p, p + |Shown(s)|, Means(s))
    decreases s, 1
  {
    ShownOpens(s);
    hide Shown, Means, IsWs, Fits, ValueAt, ScalarAt;
    assert t[p + 0] == Shown(s)[0];
    SkipsNothing(t, p);
    if s.SArray? {
      ArrayReads(t, p, s, depth);
    } else if s.SObject? {
      ObjectReads(t, p, s, depth);
    } else {
      ScalarReads(t, p, s);
      ScalarValue(t, p, depth);
    }
  }

  lemma SkipsNothing(t: Text, p: nat)
    requires p < |t| && Opens(t[p])
    ensures SkipWs(t, p) == p
  {}

  lemma ArrayValue(t: Text, p: nat, depth: nat)
    requires depth < MAX_DEPTH && SkipWs(t, p) == p && Is(t, p, OPEN_BRACKET)
    ensures var (q, v) := (SkipWs(t, p + 1), ValueAt(t, p, depth));
            if Is(t, q, CLOSE_BRACKET) then v == At(Value(Array([]), p, q + 1), q + 1)
            else
              var m := ItemsAt(t, q, depth + 1);
              m.At? ==> v == At(Value(Array(m.value), p, m.end), m.end)
  {
    hide ItemsAt, MembersAt, ScalarAt, SkipWs;
  }

  /** Brackets with nothing but white space between them. */
  lemma EmptyArrayReads(t: Text, p: nat, inner: Text, depth: nat)
    requires AllWs(inner) && depth < MAX_DEPTH && SkipWs(t, p) == p && Sits(t, p, Ascii("[") + (inner + Ascii("]")))
    ensures ValueAt(t, p, depth) == At(Value(Array([]), p, p + |inner| + 2), p + |inner| + 2)
  {
    hide AllWs, SkipWs, Sits, ValueAt;
    SitsFirst(t, p, Ascii("[") + (inner + Ascii("]")));
    SitsSplit(t, p, Ascii("["), inner + Ascii("]"));
    EmptyReads(t, p + 1, inner, Ascii("]"));
    ArrayValue(t, p, depth);
  }

  lemma ArrayIs(v: Value)
    requires v.content.Array?
    ensures Bare(v) == JArray(BareItems(v.content.arrVal))
  {}

  lemma {:induction false} FullArrayReads(t: Text, p: nat, items: seq<Item>, depth: nat)
    requires items != [] && ItemsFit(items) && depth + 1 + ItemLevels(items) <= MAX_DEPTH
    requires SkipWs(t, p) == p && Sits(t, p, Ascii("[") + ItemsText(items))
    ensures Reads(ValueAt(t, p, depth), p, p + 1 + |ItemsText(items)|, JArray(ItemsMean(items)))
    decreases items, 1
  {
    hide ItemsFit, ItemsText, ItemsMean, ItemLevels, BareItems, SkipWs, Sits, ValueAt, ItemsAt;
    SitsFirst(t, p, Ascii("[") + ItemsText(items));
    SitsSplit(t, p, Ascii("["), ItemsText(items));
    ItemsRead(t, p + 1, items, depth + 1);
    ArrayValue(t, p, depth);
    ArrayIs(ValueAt(t, p, depth).value);
  }

  lemma {:induction false} ArrayReads(t: Text, p: nat, s: Syntax, depth: nat)
    requires s.SArray? && Fits(s) && Sits(t, p, Shown(s)) && depth + Levels(s) <= MAX_DEPTH && SkipWs(t, p) == p
    ensures Reads(ValueAt(t, p, depth), p, p + |Shown(s)|, Means(s))
    decreases s, 0
  {
    hide ItemsFit, ItemsText, ItemLevels, SkipWs, Sits, ValueAt, AllWs;
    if s.items == [] {
      EmptyArrayReads(t, p, s.inner, depth);
      BareNoMembers();
      assert Bare(ValueAt(t, p, depth).value) == JArray([]);
    } else {
      FullArrayReads(t, p, s.items, depth);
    }
  }

  /** Nothing but white space before the closing bracket or brace. */
  lemma EmptyReads(t: Text, p: nat, inner: Text, close: Text)
    requires AllWs(inner) && |close| == 1 && !IsWs(close[0]) && Sits(t, p, inner + close)
    ensures SkipWs(t, p) == p + |inner| && Is(t, p + |inner|, close[0])
  {
    hide AllWs;
    SitsSplit(t, p, inner, close);
    assert t[p + |inner| + 0] == close[0];
    WsReads(t, p, inner);
  }

  lemma ObjectValue(t: Text, p: nat, depth: nat)
    requires depth < MAX_DEPTH && SkipWs(t, p) == p && Is(t, p, OPEN_BRACE)
    ensures var (q, v) := (SkipWs(t, p + 1), ValueAt(t, p, depth));
            if Is(t, q, CLOSE_BRACE) then v == At(Value(Object([]), p, q + 1), q + 1)
            else
              var m := MembersAt(t, q, depth + 1);
              m.At? ==> v == At(Value(Object(m.value), p, m.end), m.end)
  {
    hide ItemsAt, MembersAt, ScalarAt, SkipWs;
  }

  /** Brackets with nothing but white space between them. */
  lemma EmptyObjectReads(t: Text, p: nat, inner: Text, depth: nat)
    requires AllWs(inner) && depth < MAX_DEPTH && SkipWs(t, p) == p && Sits(t, p, Ascii("{") + (inner + Ascii("}")))
    ensures ValueAt(t, p, depth) == At(Value(Object([]), p, p + |inner| + 2), p + |inner| + 2)
  {
    hide AllWs, SkipWs, Sits, ValueAt;
    SitsFirst(t, p, Ascii("{") + (inner + Ascii("}")));
    SitsSplit(t, p, Ascii("{"), inner + Ascii("}"));
    EmptyReads(t, p + 1, inner, Ascii("}"));
    ObjectValue(t, p, depth);
  }

  lemma ObjectIs(v: Value)
    requires v.content.Object?
    ensures Bare(v) == JObject(BareMembers(v.content.objVal))
  {}

  lemma {:induction false} FullObjectReads(t: Text, p: nat, members: seq<Pair>, depth: nat)
    requires members != [] && MembersFit(members) && depth + 1 + MemberLevels(members) <= MAX_DEPTH
    requires SkipWs(t, p) == p && Sits(t, p, Ascii("{") + MembersText(members))
    ensures Reads(ValueAt(t, p, depth), p, p + 1 + |MembersText(members)|, JObject(MembersMean(members)))
    decreases members, 1
  {
    hide MembersFit, MembersText, MembersMean, MemberLevels, BareMembers, SkipWs, Sits, ValueAt, MembersAt;
    SitsFirst(t, p, Ascii("{") + MembersText(members));
    SitsSplit(t, p, Ascii("{"), MembersText(members));
    MembersRead(t, p + 1, members, depth + 1);
    ObjectValue(t, p, depth);
    ObjectIs(ValueAt(t, p, depth).value);
  }

  lemma {:induction false} ObjectReads(t: Text, p: nat, s: Syntax, depth: nat)
    requires s.SObject? && Fits(s) && Sits(t, p, Shown(s)) && depth + Levels(s) <= MAX_DEPTH && SkipWs(t, p) == p
    ensures Reads(ValueAt(t, p, depth), p, p + |Shown(s)|, Means(s))
    decreases s, 0
  {
    hide MembersFit, MembersText, MemberLevels, SkipWs, Sits, ValueAt, AllWs;
    if s.members == [] {
      EmptyObjectReads(t, p, s.inner, depth);
      BareNoMembers();
      assert Bare(ValueAt(t, p, depth).value) == JObject([]);
    } else {
      FullObjectReads(t, p, s.members, depth);
    }
  }

  /** White space, a value, white space and what follows it. */
  lemma {:induction false} OneReads(t: Text, p: nat, before: Text, v: Syntax, after: Text, next: Text, depth: nat)
    requires AllWs(before) && Fits(v) && AllWs(after) && depth + Levels(v) <= MAX_DEPTH
    requires next != [] && (next[0] == COMMA || next[0] == CLOSE_BRACKET || next[0] == CLOSE_BRACE)
    requires Sits(t, p, before + (Shown(v) + (after + next)))
    ensures var q := p + |before|;
            && SkipWs(t, p) == q && Opens(t[q])
            && Reads(ValueAt(t, q, depth), q, q + |Shown(v)|, Means(v)) && ValueAt(t, p, depth) == ValueAt(t, q, depth)
            && SkipWs(t, q + |Shown(v)|) == q + |Shown(v)| + |after|
            && Sits(t, q + |Shown(v)| + |after|, next) && Is(t, q + |Shown(v)| + |after|, next[0])
    decreases v, 2
  {
    hide Shown, Means, Fits, ValueAt, Levels;
    var q := p + |before|;
    var e := q + |Shown(v)|;
    SitsSplit(t, p, before, Shown(v) + (after + next));
    SitsSplit(t, q, Shown(v), after + next);
    SitsSplit(t, e, after, next);
    ShownOpens(v);
    assert t[q + 0] == Shown(v)[0] && t[e + |after| + 0] == next[0];
    WsReads(t, p, before);
    WsReads(t, e, after);
    assert after != [] ==> t[e + 0] == after[0];
    SyntaxReads(t, q, v, depth);
    SameValue(t, p, q, depth);
  }

  lemma SameValue(t: Text, p: nat, q: nat, depth: nat)
    requires SkipWs(t, p) == SkipWs(t, q)
    ensures ValueAt(t, p, depth) == ValueAt(t, q, depth)
  {}

  lemma ItemsSkip(t: Text, p: nat, depth: nat)
    requires depth <= MAX_DEPTH
    ensures ItemsAt(t, SkipWs(t, p), depth) == ItemsAt(t, p, depth)
    ensures MembersAt(t, SkipWs(t, p), depth) == MembersAt(t, p, depth)
  {
    hide ValueAt, SkipWs, StringAt;
    SkipAgain(t, p);
    assert ItemAt(t, SkipWs(t, p), depth) == ItemAt(t, p, depth) && MemberAt(t, SkipWs(t, p), depth) == MemberAt(t, p, depth);
  }

  /** One item and what follows it. */
  lemma ItemsStep(t: Text, p: nat, q: nat, x: nat, depth: nat)
    requires depth <= MAX_DEPTH && SkipWs(t, p) == q && ValueAt(t, q, depth).At? && SkipWs(t, ValueAt(t, q, depth).end) == x
    ensures var (v, r) := (ValueAt(t, q, depth).value, ItemsAt(t, p, depth));
            && (Is(t, x, CLOSE_BRACKET) ==> r == At([v], x + 1))
            && (Is(t, x, COMMA) && ItemsAt(t, x + 1, depth).At? ==>
                  r == At([v] + ItemsAt(t, x + 1, depth).value, ItemsAt(t, x + 1, depth).end))
  {
    hide ValueAt, SkipWs;
  }

  lemma ItemsTextIs(items: seq<Item>)
    requires items != [] && ItemsFit(items)
    ensures var (it, next) := (items[0], if |items| == 1 then Ascii("]") else Ascii(",") + ItemsText(items[1..]));
            ItemsText(items) == it.before + (Shown(it.value) + (it.after + next))
  {
    hide Shown, Fits;
  }

  lemma BareOne(v: Value, vs: seq<Value>)
    ensures BareItems([v] + vs) == [Bare(v)] + BareItems(vs)
  {
    assert ([v] + vs)[1..] == vs;
  }

  /** One item of the tree: what is read there, and how the list goes on behind it. */
  lemma ItemReads(t: Text, p: nat, it: Item, next: Text, depth: nat) returns (v: Value, x: nat)
    requires AllWs(it.before) && Fits(it.value) && AllWs(it.after)
    requires next != [] && (next[0] == COMMA || next[0] == CLOSE_BRACKET) && depth + Levels(it.value) <= MAX_DEPTH
    requires Sits(t, p, it.before + (Shown(it.value) + (it.after + next)))
    ensures x + |next| == p + |it.before + (Shown(it.value) + (it.after + next))|
    ensures Bare(v) == Means(it.value) && Sits(t, x, next)
    ensures SkipWs(t, p) < |t| && t[SkipWs(t, p)] != CLOSE_BRACKET
    ensures next[0] == CLOSE_BRACKET ==> ItemsAt(t, p, depth) == At([v], x + 1)
    ensures next[0] == COMMA && ItemsAt(t, x + 1, depth).At? ==>
              ItemsAt(t, p, depth) == At([v] + ItemsAt(t, x + 1, depth).value, ItemsAt(t, x + 1, depth).end)
    decreases it.value, 3
  {
    hide Shown, Means, Fits, ValueAt, Levels, ItemsAt, SkipWs, AllWs, Sits, Bare;
    OneReads(t, p, it.before, it.value, it.after, next, depth);
    var q := p + |it.before|;
    x := q + |Shown(it.value)| + |it.after|;
    v := ValueAt(t, q, depth).value;
    SitsSplit(t, p, it.before, Shown(it.value) + (it.after + next));
    ItemsStep(t, p, q, x, depth);
  }

  lemma {:induction false} ItemsRead(t: Text, p: nat, items: seq<Item>, depth: nat)
    requires items != [] && ItemsFit(items) && Sits(t, p, ItemsText(items)) && depth + ItemLevels(items) <= MAX_DEPTH
    ensures var q := SkipWs(t, p);
            && q < |t| && t[q] != CLOSE_BRACKET && ItemsAt(t, q, depth) == ItemsAt(t, p, depth)
    ensures var r := ItemsAt(t, p, depth);
            r.At? && r.end == p + |ItemsText(items)| && BareItems(r.value) == ItemsMean(items)
    decreases items, 0
  {
    hide Shown, Means, Fits, ValueAt, Levels, ItemsText, ItemsAt, SkipWs, BareItems, AllWs, Sits, Bare;
    ItemsTextIs(items);
    var next := if |items| == 1 then Ascii("]") else Ascii(",") + ItemsText(items[1..]);
    var v, x := ItemReads(t, p, items[0], next, depth);
    ItemsSkip(t, p, depth);
    if |items| > 1 {
      SitsSplit(t, x, Ascii(","), ItemsText(items[1..]));
      ItemsRead(t, x + 1, items[1..], depth);
      BareOne(v, ItemsAt(t, x + 1, depth).value);
    } else {
      assert [v] == [v] + [];
      BareOne(v, []);
      BareNoMembers();
      assert items[1..] == [];
    }
  }

  /** A key, the colon and the white space around them. */
  lemma KeyReads(t: Text, p: nat, m: Pair, rest: Text)
    requires AllWs(m.before) && ChsFit(m.key) && AllWs(m.afterKey)
    requires Sits(t, p, m.before + (StringText(m.key) + (m.afterKey + (Ascii(":") + rest))))
    ensures var k := p + |m.before|;
            var colon := k + |StringText(m.key)| + |m.afterKey|;
            && SkipWs(t, p) == k && Is(t, k, QUOTE) && StringAt(t, k) == At(ChsBytes(m.key), k + |StringText(m.key)|)
            && SkipWs(t, k + |StringText(m.key)|) == colon && Is(t, colon, COLON) && Sits(t, colon + 1, rest)
  {
    hide ChsBytes, StringText, StringAt;
    var k := p + |m.before|;
    var e := k + |StringText(m.key)|;
    SitsSplit(t, p, m.before, StringText(m.key) + (m.afterKey + (Ascii(":") + rest)));
    SitsSplit(t, k, StringText(m.key), m.afterKey + (Ascii(":") + rest));
    SitsSplit(t, e, m.afterKey, Ascii(":") + rest);
    SitsSplit(t, e + |m.afterKey|, Ascii(":"), rest);
    assert t[k + 0] == StringText(m.key)[0] && t[e + |m.afterKey| + 0] == Ascii(":")[0];
    StringReads(t, k, m.key);
    WsReads(t, p, m.before);
    WsReads(t, e, m.afterKey);
  }

  /** One member and what follows it. */
  lemma MembersStep(t: Text, p: nat, k: nat, colon: nat, q: nat, x: nat, depth: nat)
    requires depth <= MAX_DEPTH && SkipWs(t, p) == k && StringAt(t, k).At? && SkipWs(t, StringAt(t, k).end) == colon
    requires Is(t, colon, COLON) && SkipWs(t, colon + 1) == q && ValueAt(t, q, depth).At? && SkipWs(t, ValueAt(t, q, depth).end) == x
    ensures var (m, r) := (Member(StringAt(t, k).value, ValueAt(t, q, depth).value), MembersAt(t, p, depth));
            && (Is(t, x, CLOSE_BRACE) ==> r == At([m], x + 1))
            && (Is(t, x, COMMA) && MembersAt(t, x + 1, depth).At? ==>
                  r == At([m] + MembersAt(t, x + 1, depth).value, MembersAt(t, x + 1, depth).end))
  {
    hide ValueAt, SkipWs, StringAt;
  }

  lemma MembersTextIs(members: seq<Pair>)
    requires members != [] && MembersFit(members)
    ensures var (m, next) := (members[0], if |members| == 1 then Ascii("}") else Ascii(",") + MembersText(members[1..]));
            MembersText(members) == MemberShown(m, next)
  {
    hide Shown, Fits, StringText, ChsFit;
  }

  lemma BareOneMember(m: Member, ms: seq<Member>)
    ensures BareMembers([m] + ms) == [Entry(m.key, Bare(m.value))] + BareMembers(ms)
  {
    assert ([m] + ms)[1..] == ms;
  }

  /** A member and what follows it. */
  function MemberShown(m: Pair, next: Text): Text
    requires ChsFit(m.key) && Fits(m.value)
  {
    m.before + (StringText(m.key) + (m.afterKey + (Ascii(":") + (m.beforeValue + (Shown(m.value) + (m.after + next))))))
  }

  /** One member of the tree: what is read there, and how the list goes on behind it. */
  lemma MemberReads(t: Text, p: nat, m: Pair, next: Text, depth: nat) returns (member: Member, x: nat)
    requires AllWs(m.before) && ChsFit(m.key) && AllWs(m.afterKey) && AllWs(m.beforeValue) && Fits(m.value) && AllWs(m.after)
    requires next != [] && (next[0] == COMMA || next[0] == CLOSE_BRACE) && depth + Levels(m.value) <= MAX_DEPTH
    requires Sits(t, p, MemberShown(m, next))
    ensures x + |next| == p + |MemberShown(m, next)|
    ensures member.key == ChsBytes(m.key) && Bare(member.value) == Means(m.value) && Sits(t, x, next)
    ensures Is(t, SkipWs(t, p), QUOTE)
    ensures next[0] == CLOSE_BRACE ==> MembersAt(t, p, depth) == At([member], x + 1)
    ensures next[0] == COMMA && MembersAt(t, x + 1, depth).At? ==>
              MembersAt(t, p, depth) == At([member] + MembersAt(t, x + 1, depth).value, MembersAt(t, x + 1, depth).end)
    decreases m.value, 3
  {
    hide Shown, Means, Fits, ValueAt, Levels, ChsFit, ChsBytes, StringText, StringAt, MembersAt, SkipWs, AllWs, Sits, Bare;
    KeyReads(t, p, m, m.beforeValue + (Shown(m.value) + (m.after + next)));
    var k := p + |m.before|;
    var colon := k + |StringText(m.key)| + |m.afterKey|;
    OneReads(t, colon + 1, m.beforeValue, m.value, m.after, next, depth);
    var q := colon + 1 + |m.beforeValue|;
    x := q + |Shown(m.value)| + |m.after|;
    member := Member(ChsBytes(m.key), ValueAt(t, q, depth).value);
    MembersStep(t, p, k, colon, q, x, depth);
  }

  lemma {:induction false} MembersRead(t: Text, p: nat, members: seq<Pair>, depth: nat)
    requires members != [] && MembersFit(members) && Sits(t, p, MembersText(members)) && depth + MemberLevels(members) <= MAX_DEPTH
    ensures var q := SkipWs(t, p);
            && q < |t| && t[q] != CLOSE_BRACE && MembersAt(t, q, depth) == MembersAt(t, p, depth)
    ensures var r := MembersAt(t, p, depth);
            r.At? && r.end == p + |MembersText(members)| && BareMembers(r.value) == MembersMean(members)
    decreases members, 0
  {
    hide Shown, Means, Fits, ValueAt, Levels, ChsFit, ChsBytes, StringText, StringAt, MembersText, MembersAt, SkipWs,
      BareMembers, AllWs, Sits, Bare;
    MembersTextIs(members);
    var next := if |members| == 1 then Ascii("}") else Ascii(",") + MembersText(members[1..]);
    var member, x := MemberReads(t, p, members[0], next, depth);
    ItemsSkip(t, p, depth);
    if |members| > 1 {
      SitsSplit(t, x, Ascii(","), MembersText(members[1..]));
      MembersRead(t, x + 1, members[1..], depth);
      BareOneMember(member, MembersAt(t, x + 1, depth).value);
    } else {
      assert [member] == [member] + [];
      BareOneMember(member, []);
      BareNoMembers();
      assert members[1..] == [];
    }
  }

  lemma BareNoMembers()
    ensures BareMembers([]) == [] && BareItems([]) == []
  {}

  // ---------------------------------------------------------------- whole texts

  /** A tree with white space around it, within size and depth, is accepted and read as what it stands for. */
  lemma GrammarReads(before: Text, s: Syntax, after: Text)
    requires AllWs(before) && Fits(s) && AllWs(after) && Levels(s) <= MAX_DEPTH
    ensures var t := before + Shown(s) + after;
            if |t| <= MAX_BYTES then Reads(Parse(t), |before|, |before| + |Shown(s)|, Means(s)) else Parse(t).Fail?
  {
    hide Shown, Means, Fits, ValueAt, Levels, SkipWs, Sits;
    var t := before + Shown(s) + after;
    var e := |before| + |Shown(s)|;
    Surrounded(before, Shown(s), after);
    ShownOpens(s);
    assert t[|before|] == Shown(s)[0];
    WsReads(t, 0, before);
    WsReads(t, e, after);
    assert after != [] ==> t[e] == after[0];
    SyntaxReads(t, |before|, s, 0);
  }

  lemma Surrounded(a: Text, b: Text, c: Text)
    ensures Sits(a + b + c, 0, a) && Sits(a + b + c, |a|, b) && Sits(a + b + c, |a| + |b|, c)
  {}
}
