/** What an accepted text's spans promise: they nest in order, and the bytes of any of them parse again to the
    same value. */
module JsonSpans {
  import opened Numbers
  import opened JsonReader

  // ---------------------------------------------------------------- moving spans

  function Back(n: nat, k: nat): nat { if n >= k then n - k else 0 }

  /** The value with every span k bytes earlier. */
  function Moved(v: Value, k: nat): Value
    decreases v
  {
    var content :=
      match v.content
      case Array(items) => Array(seq(|items|, i requires 0 <= i < |items| => Moved(items[i], k)))
      case Object(ms) =>
        Object(seq(|ms|, i requires 0 <= i < |ms| => Member(ms[i].key, Moved(ms[i].value, k))))
      case _ => v.content;
    Value(content, Back(v.spanStart, k), Back(v.spanEnd, k))
  }

  function MovedAll(items: seq<Value>, k: nat): (r: seq<Value>)
    ensures |r| == |items|
  {
    seq(|items|, i requires 0 <= i < |items| => Moved(items[i], k))
  }

  function MovedMembers(ms: seq<Member>, k: nat): (r: seq<Member>)
    ensures |r| == |ms|
  {
    seq(|ms|, i requires 0 <= i < |ms| => Member(ms[i].key, Moved(ms[i].value, k)))
  }

  function MovedContent(c: Content, k: nat): Content {
    match c
    case Array(items) => Array(MovedAll(items, k))
    case Object(ms) => Object(MovedMembers(ms, k))
    case _ => c
  }

  lemma MovedIs(v: Value, k: nat)
    ensures Moved(v, k) == Value(MovedContent(v.content, k), Back(v.spanStart, k), Back(v.spanEnd, k))
  {}

  // ---------------------------------------------------------------- scalars inside a slice

  lemma SliceAt(t: Text, k: nat, m: nat, p: nat, c: Octet)
    requires k <= p && m <= |t|
    ensures p < m ==> Is(t[k..m], p - k, c) == Is(t, p, c) && t[k..m][p - k] == t[p]
    ensures k <= m <= p ==> !Is(t[k..m], p - k, c)
  {}

  lemma SliceOfSlice(t: Text, k: nat, m: nat, a: nat, b: nat)
    requires k <= a <= b <= m <= |t|
    ensures t[k..m][a - k..b - k] == t[a..b]
  {
    var s := t[k..m];
    forall i | 0 <= i < b - a
      ensures s[a - k..b - k][i] == t[a..b][i]
    {
      assert s[a - k + i] == t[a + i];
    }
  }

  lemma {:induction false} SliceWs(t: Text, k: nat, m: nat, p: nat)
    requires k <= p && SkipWs(t, p) <= m <= |t|
    ensures SkipWs(t[k..m], p - k) == SkipWs(t, p) - k
    decreases |t| - p
  {
    if p < |t| && IsWs(t[p]) {
      SliceWs(t, k, m, p + 1);
    }
  }

  lemma {:induction false} SliceDigits(t: Text, k: nat, m: nat, p: nat)
    requires k <= p && Digits(t, p) <= m <= |t|
    ensures Digits(t[k..m], p - k) == Digits(t, p) - k
    decreases |t| - p
  {
    if DigitAt(t, p) {
      SliceDigits(t, k, m, p + 1);
    }
  }

  lemma SliceSomeDigits(t: Text, k: nat, m: nat, p: nat)
    requires k <= p && SomeDigits(t, p).At? && SomeDigits(t, p).end <= m <= |t|
    ensures SomeDigits(t[k..m], p - k) == At((), SomeDigits(t, p).end - k)
  {
    SliceDigits(t, k, m, p);
  }

  lemma SliceFraction(t: Text, k: nat, m: nat, p: nat)
    requires k <= p <= |t| && Fraction(t, p).At? && Fraction(t, p).end <= m <= |t|
    ensures Fraction(t[k..m], p - k) == At((), Fraction(t, p).end - k)
  {
    hide SomeDigits;
    if Is(t, p, 0x2E) {
      SliceSomeDigits(t, k, m, p + 1);
    }
  }

  lemma SliceExponent(t: Text, k: nat, m: nat, p: nat)
    requires k <= p <= |t| && Exponent(t, p).At? && Exponent(t, p).end <= m <= |t|
    ensures Exponent(t[k..m], p - k) == At((), Exponent(t, p).end - k)
  {
    hide SomeDigits;
    if Is(t, p, 0x65) || Is(t, p, 0x45) {
      SliceSomeDigits(t, k, m, if Is(t, p + 1, 0x2B) || Is(t, p + 1, 0x2D) then p + 2 else p + 1);
    }
  }

  lemma SliceNumber(t: Text, k: nat, m: nat, p: nat)
    requires k <= p && NumberAt(t, p).At? && NumberAt(t, p).end <= m <= |t|
    ensures NumberAt(t[k..m], p - k) == At(NumberAt(t, p).value, NumberAt(t, p).end - k)
  {
    hide SomeDigits, Fraction, Exponent;
    var q := if Is(t, p, 0x2D) then p + 1 else p;
    SliceSomeDigits(t, k, m, q);
    var whole := SomeDigits(t, q);
    SliceFraction(t, k, m, whole.end);
    var fraction := Fraction(t, whole.end);
    SliceExponent(t, k, m, fraction.end);
    var e := NumberAt(t, p).end;
    SliceOfSlice(t, k, m, p, e);
  }

  lemma SliceChar(t: Text, k: nat, m: nat, p: nat)
    requires k <= p && OneChar(t, p).At? && OneChar(t, p).end <= m <= |t|
    ensures OneChar(t[k..m], p - k) == At(OneChar(t, p).value, OneChar(t, p).end - k)
  {
    hide ShortEscape, HexDigit, Utf8;
  }

  lemma {:induction false} SliceStringRest(t: Text, k: nat, m: nat, p: nat)
    requires k <= p && StringRest(t, p).At? && StringRest(t, p).end <= m <= |t|
    ensures StringRest(t[k..m], p - k) == At(StringRest(t, p).value, StringRest(t, p).end - k)
    decreases |t| - p
  {
    hide OneChar;
    if !Is(t, p, QUOTE) {
      SliceChar(t, k, m, p);
      SliceStringRest(t, k, m, OneChar(t, p).end);
    }
  }

  lemma SliceString(t: Text, k: nat, m: nat, p: nat)
    requires k <= p && StringAt(t, p).At? && StringAt(t, p).end <= m <= |t|
    ensures StringAt(t[k..m], p - k) == At(StringAt(t, p).value, StringAt(t, p).end - k)
  {
    SliceStringRest(t, k, m, p + 1);
  }

  lemma SliceLiteral(t: Text, k: nat, m: nat, p: nat, literal: Text)
    requires k <= p && LiteralAt(t, p, literal) && p + |literal| <= m <= |t|
    ensures LiteralAt(t[k..m], p - k, literal)
  {
    SliceOfSlice(t, k, m, p, p + |literal|);
  }

  lemma SliceScalar(t: Text, k: nat, m: nat, p: nat)
    requires k <= p < |t| && ScalarAt(t, p).At? && ScalarAt(t, p).end <= m <= |t|
    ensures ScalarAt(t[k..m], p - k) == At(ScalarAt(t, p).value, ScalarAt(t, p).end - k)
    ensures MovedContent(ScalarAt(t, p).value, k) == ScalarAt(t, p).value
  {
    hide StringAt, NumberAt, LiteralAt;
    if t[p] == QUOTE {
      SliceString(t, k, m, p);
    } else if t[p] == TRUE[0] {
      SliceLiteral(t, k, m, p, TRUE);
    } else if t[p] == FALSE[0] {
      SliceLiteral(t, k, m, p, FALSE);
    } else if t[p] == NULL[0] {
      SliceLiteral(t, k, m, p, NULL);
    } else {
      SliceNumber(t, k, m, p);
    }
  }

  // ---------------------------------------------------------------- values inside a slice

  /** A value that ends inside a slice parses in the slice to the same value, moved, at no greater depth. */
  lemma {:induction false} SliceValue(t: Text, k: nat, m: nat, p: nat, depth: nat, depth': nat)
    requires k <= p && depth' <= depth && ValueAt(t, p, depth).At? && ValueAt(t, p, depth).end <= m <= |t|
    ensures ValueAt(t[k..m], p - k, depth') == At(Moved(ValueAt(t, p, depth).value, k), ValueAt(t, p, depth).end - k)
    decreases MAX_DEPTH - depth, 0
  {
    hide ContentAt, MovedContent;
    var v := ValueAt(t, p, depth).value;
    SliceWs(t, k, m, p);
    SliceContent(t, k, m, v.spanStart, depth + 1, depth' + 1);
    MovedIs(v, k);
  }

  lemma {:induction false} SliceContent(t: Text, k: nat, m: nat, p: nat, depth: nat, depth': nat)
    requires k <= p && depth' <= depth <= MAX_DEPTH
    requires ContentAt(t, p, depth).At? && ContentAt(t, p, depth).end <= m <= |t|
    ensures ContentAt(t[k..m], p - k, depth')
            == At(MovedContent(ContentAt(t, p, depth).value, k), ContentAt(t, p, depth).end - k)
    decreases MAX_DEPTH - depth, 2
  {
    hide MembersAt, ItemsAt, ScalarAt, MovedAll, MovedMembers, SkipWs;
    SliceAt(t, k, m, p, OPEN_BRACE);
    if t[p] == OPEN_BRACE || t[p] == OPEN_BRACKET {
      var q := SkipWs(t, p + 1);
      SliceWs(t, k, m, p + 1);
      SliceAt(t, k, m, q, CLOSE_BRACE);
      SliceAt(t, k, m, q, CLOSE_BRACKET);
      MovedNothing(k);
      if t[p] == OPEN_BRACE && !Is(t, q, CLOSE_BRACE) {
        SliceMembers(t, k, m, q, depth, depth');
      } else if t[p] == OPEN_BRACKET && !Is(t, q, CLOSE_BRACKET) {
        SliceItems(t, k, m, q, depth, depth');
      }
    } else {
      SliceScalar(t, k, m, p);
    }
  }

  lemma MovedNothing(k: nat)
    ensures MovedAll([], k) == [] && MovedMembers([], k) == []
  {}

  lemma MovedOne(v: Value, w: Member, k: nat)
    ensures MovedAll([v], k) == [Moved(v, k)]
    ensures MovedMembers([w], k) == [Member(w.key, Moved(w.value, k))]
  {
    hide Moved;
  }

  lemma MovedMore(v: Value, items: seq<Value>, w: Member, ms: seq<Member>, k: nat)
    ensures MovedAll([v] + items, k) == [Moved(v, k)] + MovedAll(items, k)
    ensures MovedMembers([w] + ms, k) == [Member(w.key, Moved(w.value, k))] + MovedMembers(ms, k)
  {
    hide Moved;
  }

  lemma {:induction false} SliceMember(t: Text, k: nat, m: nat, p: nat, depth: nat, depth': nat)
    requires k <= p && depth' <= depth <= MAX_DEPTH
    requires MemberAt(t, p, depth).At? && MemberAt(t, p, depth).end <= m <= |t|
    ensures var w := MemberAt(t, p, depth).value;
            MemberAt(t[k..m], p - k, depth') == At(Member(w.key, Moved(w.value, k)), MemberAt(t, p, depth).end - k)
    decreases MAX_DEPTH - depth, 1, 0
  {
    hide ValueAt, StringAt, Moved, SkipWs;
    SliceWs(t, k, m, p);
    var key := StringAt(t, SkipWs(t, p));
    SliceString(t, k, m, SkipWs(t, p));
    SliceWs(t, k, m, key.end);
    var colon := SkipWs(t, key.end);
    SliceAt(t, k, m, colon, COLON);
    SliceWs(t, k, m, colon + 1);
    SliceValue(t, k, m, SkipWs(t, colon + 1), depth, depth');
  }

  lemma {:induction false} SliceMembers(t: Text, k: nat, m: nat, p: nat, depth: nat, depth': nat)
    requires k <= p && depth' <= depth <= MAX_DEPTH
    requires MembersAt(t, p, depth).At? && MembersAt(t, p, depth).end <= m <= |t|
    ensures MembersAt(t[k..m], p - k, depth')
            == At(MovedMembers(MembersAt(t, p, depth).value, k), MembersAt(t, p, depth).end - k)
    decreases MAX_DEPTH - depth, 1, if p <= |t| then |t| - p + 1 else 1
  {
    hide MemberAt, MovedMembers, Moved, SkipWs;
    var w := MemberAt(t, p, depth);
    var q := SkipWs(t, w.end);
    SliceMember(t, k, m, p, depth, depth');
    SliceWs(t, k, m, w.end);
    SliceAt(t, k, m, q, COMMA);
    SliceAt(t, k, m, q, CLOSE_BRACE);
    MovedNothing(k);
    if Is(t, q, COMMA) {
      SliceMembers(t, k, m, q + 1, depth, depth');
      MovedMore(w.value.value, [], w.value, MembersAt(t, q + 1, depth).value, k);
    } else {
      MovedOne(w.value.value, w.value, k);
    }
  }

  lemma {:induction false} SliceItem(t: Text, k: nat, m: nat, p: nat, depth: nat, depth': nat)
    requires k <= p && depth' <= depth <= MAX_DEPTH && ItemAt(t, p, depth).At? && ItemAt(t, p, depth).end <= m <= |t|
    ensures ItemAt(t[k..m], p - k, depth') == At(Moved(ItemAt(t, p, depth).value, k), ItemAt(t, p, depth).end - k)
    decreases MAX_DEPTH - depth, 1, 0
  {
    hide ValueAt, Moved;
    SliceWs(t, k, m, p);
    SliceValue(t, k, m, SkipWs(t, p), depth, depth');
  }

  lemma {:induction false} SliceItems(t: Text, k: nat, m: nat, p: nat, depth: nat, depth': nat)
    requires k <= p && depth' <= depth <= MAX_DEPTH
    requires ItemsAt(t, p, depth).At? && ItemsAt(t, p, depth).end <= m <= |t|
    ensures ItemsAt(t[k..m], p - k, depth') == At(MovedAll(ItemsAt(t, p, depth).value, k), ItemsAt(t, p, depth).end - k)
    decreases MAX_DEPTH - depth, 1, if p <= |t| then |t| - p + 1 else 1
  {
    hide ItemAt, MovedAll, Moved, SkipWs;
    var v := ItemAt(t, p, depth);
    var q := SkipWs(t, v.end);
    SliceItem(t, k, m, p, depth, depth');
    SliceWs(t, k, m, v.end);
    SliceAt(t, k, m, q, COMMA);
    SliceAt(t, k, m, q, CLOSE_BRACKET);
    MovedNothing(k);
    var w := Member([], v.value);
    if Is(t, q, COMMA) {
      SliceItems(t, k, m, q + 1, depth, depth');
      MovedMore(v.value, ItemsAt(t, q + 1, depth).value, w, [], k);
    } else {
      MovedOne(v.value, w, k);
    }
  }

  // ---------------------------------------------------------------- children

  /** The values directly inside a value, in order. */
  function Children(v: Value): seq<Value> {
    match v.content
    case Array(items) => items
    case Object(ms) => seq(|ms|, i requires 0 <= i < |ms| => ms[i].value)
    case _ => []
  }

  /** A list of values, each parsed at its own start, in order and apart, strictly between two places. */
  ghost predicate Between(t: Text, depth: nat, vs: seq<Value>, from: nat, to: nat) {
    && (forall i :: 0 <= i < |vs| ==> Stands(t, depth, vs[i], from, to))
    && (forall i, j :: 0 <= i < j < |vs| ==> vs[i].spanEnd < vs[j].spanStart)
  }

  ghost predicate Stands(t: Text, depth: nat, v: Value, from: nat, to: nat) {
    from <= v.spanStart < v.spanEnd < to <= |t| && ValueAt(t, v.spanStart, depth) == At(v, v.spanEnd)
  }

  lemma StandsWhereItStarts(t: Text, p: nat, depth: nat)
    requires ValueAt(t, p, depth).At?
    ensures var v := ValueAt(t, p, depth).value; ValueAt(t, v.spanStart, depth) == At(v, v.spanEnd)
  {
    hide ContentAt;
  }

  lemma BetweenMore(t: Text, depth: nat, v: Value, rest: seq<Value>, from: nat, mid: nat, to: nat)
    requires Stands(t, depth, v, from, to) && from <= v.spanEnd < mid && Between(t, depth, rest, mid, to)
    ensures Between(t, depth, [v] + rest, from, to)
  {
    hide ValueAt;
    var all := [v] + rest;
    forall i | 0 <= i < |all|
      ensures Stands(t, depth, all[i], from, to)
    {
      if i > 0 {
        assert Stands(t, depth, rest[i - 1], mid, to);
      }
    }
    forall i, j | 0 <= i < j < |all|
      ensures all[i].spanEnd < all[j].spanStart
    {
      assert Stands(t, depth, rest[j - 1], mid, to);
      if i > 0 {
        assert rest[i - 1].spanEnd < rest[j - 1].spanStart;
      }
    }
  }

  lemma {:induction false} ItemsStand(t: Text, p: nat, depth: nat)
    requires depth <= MAX_DEPTH && ItemsAt(t, p, depth).At?
    ensures Between(t, depth, ItemsAt(t, p, depth).value, p, ItemsAt(t, p, depth).end)
    decreases |t| - p
  {
    hide ValueAt;
    var v := ItemAt(t, p, depth);
    var q := SkipWs(t, v.end);
    var e := ItemsAt(t, p, depth).end;
    StandsWhereItStarts(t, SkipWs(t, p), depth);
    if Is(t, q, COMMA) {
      ItemsStand(t, q + 1, depth);
      BetweenMore(t, depth, v.value, ItemsAt(t, q + 1, depth).value, p, q + 1, e);
    }
  }

  function ValuesOf(ms: seq<Member>): (vs: seq<Value>)
    ensures |vs| == |ms|
  {
    seq(|ms|, i requires 0 <= i < |ms| => ms[i].value)
  }

  lemma {:induction false} MembersStand(t: Text, p: nat, depth: nat)
    requires depth <= MAX_DEPTH && MembersAt(t, p, depth).At?
    ensures Between(t, depth, ValuesOf(MembersAt(t, p, depth).value), p, MembersAt(t, p, depth).end)
    decreases |t| - p
  {
    hide ValueAt, StringAt;
    var w := MemberAt(t, p, depth);
    var q := SkipWs(t, w.end);
    var e := MembersAt(t, p, depth).end;
    StandsWhereItStarts(t, SkipWs(t, SkipWs(t, StringAt(t, SkipWs(t, p)).end) + 1), depth);
    if Is(t, q, COMMA) {
      MembersStand(t, q + 1, depth);
      var rest := MembersAt(t, q + 1, depth).value;
      BetweenMore(t, depth, w.value.value, ValuesOf(rest), p, q + 1, e);
      assert ValuesOf([w.value] + rest) == [w.value.value] + ValuesOf(rest);
    }
  }

  /** The children of a parsed value lie in order, apart, strictly inside it, one level deeper. */
  lemma ChildrenStand(t: Text, p: nat, depth: nat)
    requires ValueAt(t, p, depth).At?
    ensures var v := ValueAt(t, p, depth).value;
            Between(t, depth + 1, Children(v), v.spanStart + 1, v.spanEnd)
  {
    hide MembersAt, ItemsAt, SkipWs;
    var v := ValueAt(t, p, depth).value;
    var s := v.spanStart;
    assert v.content == ContentAt(t, s, depth + 1).value && v.spanEnd == ContentAt(t, s, depth + 1).end;
    var q := SkipWs(t, s + 1);
    if t[s] == OPEN_BRACE && !Is(t, q, CLOSE_BRACE) {
      MembersStand(t, q, depth + 1);
      Widen(t, depth + 1, Children(v), q, s + 1, v.spanEnd);
    } else if t[s] == OPEN_BRACKET && !Is(t, q, CLOSE_BRACKET) {
      ItemsStand(t, q, depth + 1);
      Widen(t, depth + 1, Children(v), q, s + 1, v.spanEnd);
    } else {
      assert Children(v) == [];
    }
  }

  lemma Widen(t: Text, depth: nat, vs: seq<Value>, q: nat, from: nat, to: nat)
    requires from <= q && Between(t, depth, vs, q, to)
    ensures Between(t, depth, vs, from, to)
  {
    hide ValueAt;
    forall i | 0 <= i < |vs|
      ensures Stands(t, depth, vs[i], from, to)
    {
      assert Stands(t, depth, vs[i], q, to);
    }
  }

  // ---------------------------------------------------------------- the whole tree

  /** u is v or somewhere inside it, at most n levels down. */
  ghost predicate Within(u: Value, v: Value, n: nat) {
    u == v || (n > 0 && exists i :: 0 <= i < |Children(v)| && Within(u, Children(v)[i], n - 1))
  }

  /** Every value in the tree, the root included, is at most n values deep, and its children lie in order,
      apart, strictly inside it. */
  ghost predicate Nested(v: Value, n: nat) {
    && n > 0
    && (forall i :: 0 <= i < |Children(v)| ==>
          v.spanStart < Children(v)[i].spanStart < Children(v)[i].spanEnd < v.spanEnd)
    && (forall i, j :: 0 <= i < j < |Children(v)| ==> Children(v)[i].spanEnd < Children(v)[j].spanStart)
    && (forall i :: 0 <= i < |Children(v)| ==> Nested(Children(v)[i], n - 1))
  }

  lemma {:induction false} ParsedNests(t: Text, p: nat, depth: nat)
    requires ValueAt(t, p, depth).At?
    ensures depth < MAX_DEPTH && Nested(ValueAt(t, p, depth).value, MAX_DEPTH - depth)
    decreases MAX_DEPTH - depth
  {
    hide ValueAt, Children;
    ChildrenStand(t, p, depth);
    var v := ValueAt(t, p, depth).value;
    var kids := Children(v);
    forall i | 0 <= i < |kids|
      ensures v.spanStart < kids[i].spanStart < kids[i].spanEnd < v.spanEnd
      ensures Nested(kids[i], MAX_DEPTH - depth - 1)
    {
      assert Stands(t, depth + 1, kids[i], v.spanStart + 1, v.spanEnd);
      ParsedNests(t, kids[i].spanStart, depth + 1);
    }
  }

  /** Every value of an accepted text was parsed at its own start. */
  lemma {:induction false} WithinParsed(t: Text, p: nat, depth: nat, u: Value, n: nat) returns (deep: nat)
    requires ValueAt(t, p, depth).At? && Within(u, ValueAt(t, p, depth).value, n)
    ensures ValueAt(t, u.spanStart, deep) == At(u, u.spanEnd) && u.spanEnd <= |t|
    decreases n
  {
    hide ValueAt, Children;
    var v := ValueAt(t, p, depth).value;
    if u == v {
      StandsWhereItStarts(t, p, depth);
      deep := depth;
    } else {
      ChildrenStand(t, p, depth);
      var i :| 0 <= i < |Children(v)| && Within(u, Children(v)[i], n - 1);
      assert Stands(t, depth + 1, Children(v)[i], v.spanStart + 1, v.spanEnd);
      deep := WithinParsed(t, Children(v)[i].spanStart, depth + 1, u, n - 1);
    }
  }

  /** If a text is accepted, spans nest in order at most five deep. */
  lemma AcceptedNests(t: Text)
    requires Parse(t).At?
    ensures Nested(Parse(t).value, MAX_DEPTH)
  {
    hide ValueAt, Nested;
    ParsedNests(t, SkipWs(t, 0), 0);
  }

  /** Span locality: the bytes of any value's span are accepted on their own, as the same value with its spans
      counted from there. */
  lemma SpanReparses(t: Text, u: Value, n: nat)
    requires Parse(t).At? && Within(u, Parse(t).value, n)
    ensures u.spanStart < u.spanEnd <= |t|
    ensures Parse(t[u.spanStart..u.spanEnd]) == At(Moved(u, u.spanStart), u.spanEnd - u.spanStart)
  {
    hide Within, Moved, ContentAt;
    var deep := WithinParsed(t, SkipWs(t, 0), 0, u, n);
    var slice := t[u.spanStart..u.spanEnd];
    SliceValue(t, u.spanStart, u.spanEnd, u.spanStart, deep, 0);
    StartsThere(t, u, deep, slice);
  }

  lemma StartsThere(t: Text, u: Value, deep: nat, slice: Text)
    requires ValueAt(t, u.spanStart, deep) == At(u, u.spanEnd) && u.spanEnd <= |t|
    requires slice == t[u.spanStart..u.spanEnd]
    ensures SkipWs(slice, 0) == 0 && SkipWs(slice, |slice|) == |slice|
  {
    hide ContentAt;
    SliceWs(t, u.spanStart, u.spanEnd, u.spanStart);
  }
}
