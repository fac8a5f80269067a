/** The plainest text of a value, with its strings escaped by jsonEscapeString, and the proof that the parser reads it
    back to the same value. */
module JsonWritten {
  import opened Numbers
  import opened JsonReader
  import opened JsonEscape
  import opened JsonGrammar
  import opened JsonAccepts

  /** A number as the grammar has it. */
  ghost predicate Lexeme(text: Text) { exists n :: NumFits(n) && NumText(n) == text }

  /** Every number of the value is one of the grammar. */
  ghost predicate Writable(v: Json) {
    match v
    case JNumber(lexeme) => Lexeme(lexeme)
    case JArray(vs) => forall i :: 0 <= i < |vs| ==> Writable(vs[i])
    case JObject(ms) => forall i :: 0 <= i < |ms| ==> Writable(ms[i].value)
    case _ => true
  }

  function Written(v: Json): Text {
    match v
    case JNull => NULL
    case JBool(b) => if b then TRUE else FALSE
    case JNumber(lexeme) => lexeme
    case JString(s) => Quoted(s)
    case JArray(vs) => [OPEN_BRACKET] + (if vs == [] then [CLOSE_BRACKET] else WrittenItems(vs))
    case JObject(ms) => [OPEN_BRACE] + (if ms == [] then [CLOSE_BRACE] else WrittenMembers(ms))
  }

  function WrittenItems(vs: seq<Json>): Text
    requires vs != []
  {
    Written(vs[0]) + (if |vs| == 1 then [CLOSE_BRACKET] else [COMMA] + WrittenItems(vs[1..]))
  }

  function WrittenMembers(ms: seq<Entry>): Text
    requires ms != []
  {
    Quoted(ms[0].key) + ([COLON] + (Written(ms[0].value) + (if |ms| == 1 then [CLOSE_BRACE] else [COMMA] + WrittenMembers(ms[1..]))))
  }

  /** How many values lie within each other, this one included. */
  function Nesting(v: Json): nat {
    match v
    case JArray(vs) => 1 + ItemNesting(vs)
    case JObject(ms) => 1 + MemberNesting(ms)
    case _ => 1
  }

  function ItemNesting(vs: seq<Json>): nat {
    if vs == [] then 0 else Larger(Nesting(vs[0]), ItemNesting(vs[1..]))
  }

  function MemberNesting(ms: seq<Entry>): nat {
    if ms == [] then 0 else Larger(Nesting(ms[0].value), MemberNesting(ms[1..]))
  }

  // ---------------------------------------------------------------- its syntax tree

  function EscapeCh(c: Octet): Ch {
    if c == 0x22 then Short('"') else if c == 0x5C then Short('\\')
    else if c == 8 then Short('b') else if c == 9 then Short('t') else if c == 10 then Short('n')
    else if c == 12 then Short('f') else if c == 13 then Short('r')
    else if c < 0x20 then Hex(Digit(0, false), Digit(0, false), Digit(c / 16, false), Digit(c % 16, false))
    else Plain(c)
  }

  lemma EscapeChIs(c: Octet)
    ensures ChFits(EscapeCh(c)) && ChText(EscapeCh(c)) == Escape(c) && ChBytes(EscapeCh(c)) == [c]
  {
    hide DigitText;
    if EscapeCh(c).Hex? {
      EscapeHex(c);
    }
  }

  lemma HexIs(d: nat)
    requires d < 16
    ensures DigitText(Digit(d, false)) == HexChar(d) && (d == 0 ==> HexChar(d) == 0x30)
  {}

  lemma EscapeHex(c: Octet)
    requires EscapeCh(c).Hex?
    ensures ChFits(EscapeCh(c)) && ChText(EscapeCh(c)) == Escape(c) && ChBytes(EscapeCh(c)) == [c]
  {
    hide DigitText, HexChar;
    HexIs(0);
    HexIs(c / 16);
    HexIs(c % 16);
  }

  function EscapeChs(s: Text): seq<Ch> { if s == [] then [] else [EscapeCh(s[0])] + EscapeChs(s[1..]) }

  lemma {:induction false} EscapeChsAre(s: Text)
    ensures var chs := EscapeChs(s);
            ChsFit(chs) && ChsText(chs) == Escaped(s) && ChsBytes(chs) == s && StringText(chs) == Quoted(s)
  {
    hide EscapeCh, ChFits, ChText, ChBytes, Escape, Escaped;
    EscapedEmpty();
    if s != [] {
      EscapeChIs(s[0]);
      EscapeChsAre(s[1..]);
      EscapedCons(s[0], s[1..]);
      assert s == [s[0]] + s[1..] && EscapeChs(s)[1..] == EscapeChs(s[1..]);
    }
    assert Ascii("\"") == [QUOTE];
  }

  lemma StringWritten(s: Text) returns (t: Syntax)
    ensures t == SString(EscapeChs(s)) && Fits(t) && Shown(t) == Quoted(s) && Means(t) == JString(s) && Levels(t) == 1
  {
    hide EscapeChs, ChsFit, StringText, ChsBytes, Quoted;
    t := SString(EscapeChs(s));
    EscapeChsAre(s);
  }

  lemma {:induction false} TreeOf(v: Json) returns (t: Syntax)
    requires Writable(v)
    ensures Fits(t) && Shown(t) == Written(v) && Means(t) == v && Levels(t) == Nesting(v)
    decreases v
  {
    hide NumFits, NumText, Quoted, ItemsText, MembersText, WrittenItems, WrittenMembers, ItemsFit, MembersFit,
      ItemsMean, MembersMean, ItemLevels, MemberLevels, ItemNesting, MemberNesting;
    match v {
      case JNull => t := SNull;
      case JBool(b) => t := if b then STrue else SFalse;
      case JNumber(lexeme) =>
        var n :| NumFits(n) && NumText(n) == lexeme;
        t := SNumber(n);
      case JString(s) =>
        t := StringWritten(s);
      case JArray(vs) =>
        var items := ItemsOf(vs);
        t := SArray([], items);
      case JObject(ms) =>
        var members := MembersOf(ms);
        t := SObject([], members);
    }
  }

  lemma {:induction false} ItemsOf(vs: seq<Json>) returns (items: seq<Item>)
    requires forall i :: 0 <= i < |vs| ==> Writable(vs[i])
    ensures |items| == |vs| && ItemsFit(items) && ItemsMean(items) == vs && ItemLevels(items) == ItemNesting(vs)
    ensures vs != [] ==> ItemsText(items) == WrittenItems(vs)
    decreases vs
  {
    hide Writable, Written, Shown, Fits, Means, Levels, Nesting;
    items := [];
    if vs != [] {
      var first := TreeOf(vs[0]);
      var rest := ItemsOf(vs[1..]);
      items := [Item([], first, [])] + rest;
      assert items[1..] == rest;
      assert Ascii("]") == [CLOSE_BRACKET] && Ascii(",") == [COMMA];
    }
  }

  /** A member without white space. */
  lemma PlainMember(m: Pair, next: Text)
    requires m.before == m.afterKey == m.beforeValue == m.after == [] && ChsFit(m.key) && Fits(m.value)
    ensures MemberShown(m, next) == StringText(m.key) + ([COLON] + (Shown(m.value) + next))
  {
    hide ChsFit, Fits, StringText, Shown;
    assert Ascii(":") == [COLON];
  }

  lemma {:induction false} MembersOf(ms: seq<Entry>) returns (members: seq<Pair>)
    requires forall i :: 0 <= i < |ms| ==> Writable(ms[i].value)
    ensures |members| == |ms| && MembersFit(members) && MembersMean(members) == ms && MemberLevels(members) == MemberNesting(ms)
    ensures ms != [] ==> MembersText(members) == WrittenMembers(ms)
    decreases ms
  {
    hide Writable, Written, Shown, Fits, Means, Levels, Nesting, EscapeChs, ChsFit, ChsText, ChsBytes, StringText, Quoted;
    members := [];
    if ms != [] {
      EscapeChsAre(ms[0].key);
      var first := TreeOf(ms[0].value);
      var rest := MembersOf(ms[1..]);
      var pair := Pair([], EscapeChs(ms[0].key), [], [], first, []);
      members := [pair] + rest;
      assert members[1..] == rest;
      MembersTextIs(members);
      hide MembersText;
      PlainMember(pair, if |ms| == 1 then Ascii("}") else Ascii(",") + MembersText(rest));
      assert Ascii("}") == [CLOSE_BRACE] && Ascii(",") == [COMMA];
    }
  }

  /** What is written is read back, each value as it was and in its order, repeated keys and all; a value that is too
      long or too deep is refused. */
  lemma WrittenReads(v: Json)
    requires Writable(v)
    ensures var (t, r) := (Written(v), Parse(Written(v)));
            if |t| <= MAX_BYTES && Nesting(v) <= MAX_DEPTH then r.At? && r.end == |t| && Bare(r.value) == v
            else |t| > MAX_BYTES ==> r.Fail?
  {
    hide Written, Shown, Fits, Means, Levels, Nesting;
    var s := TreeOf(v);
    if Nesting(v) <= MAX_DEPTH {
      assert Written(v) == [] + Shown(s) + [];
      GrammarReads([], s, []);
    }
  }
}
