/** detail::Parser and parse of src/Helpers/JsonReader.hpp: the cursor that computes what JsonReader defines. */
module JsonParser {
  import opened Numbers
  import opened JsonReader

  /** What was found, after what was found before. */
  function Prepend<T>(before: seq<T>, r: Found<seq<T>>): Found<seq<T>> {
    if r.Fail? then Fail else At(before + r.value, r.end)
  }

  lemma PrependLaws<T>(before: seq<T>, more: seq<T>, r: Found<seq<T>>)
    ensures Prepend([], r) == r
    ensures Prepend(before, Prepend(more, r)) == Prepend(before + more, r)
  {
    if r.At? {
      assert [] + r.value == r.value;
      assert before + (more + r.value) == before + more + r.value;
    }
  }

  class Parser {
    const text: Text
    var p: nat
    var depth: nat
    var error: bool

    constructor (text: Text)
      ensures this.text == text && p == 0 && depth == 0 && !error
    {
      this.text := text;
      p, depth, error := 0, 0, false;
    }

    /** A step that failed left error set; one that succeeded moved the cursor to its end. */
    ghost predicate Stepped<T>(ok: bool, r: Found<T>)
      reads this
    {
      if ok then r.At? && p == r.end else r.Fail? && error
    }

    method SkipBlanks()
      requires p <= |text|
      modifies this`p
      ensures p == SkipWs(text, old(p))
    {
      while p < |text| && IsWs(text[p])
        invariant p <= |text| && SkipWs(text, p) == SkipWs(text, old(p))
      {
        p := p + 1;
      }
    }

    method Consume(c: Octet) returns (ok: bool)
      requires p <= |text|
      modifies this`p, this`error
      ensures ok == Is(text, old(p), c) && p == (if ok then old(p) + 1 else old(p))
      ensures if ok then error == old(error) else error
    {
      if p >= |text| || text[p] != c {
        error := true;
        return false;
      }
      p := p + 1;
      return true;
    }

    method ParseHex4() returns (ok: bool, out: nat)
      requires p <= |text|
      modifies this`p, this`error
      ensures Stepped(ok, Hex4(text, old(p))) && (ok ==> out == Hex4(text, old(p)).value)
      ensures ok ==> error == old(error)
    {
      out := 0;
      if |text| - p < 4 {
        error := true;
        return false, out;
      }
      for i := 0 to 4
        invariant p == old(p) && error == old(error)
        invariant forall j :: p <= j < p + i ==> HexDigit(text[j]) >= 0
        invariant i == 0 ==> out == 0
        invariant i == 1 ==> out == HexDigit(text[p])
        invariant i == 2 ==> out == HexDigit(text[p]) * 16 + HexDigit(text[p + 1])
        invariant i == 3 ==> out == (HexDigit(text[p]) * 16 + HexDigit(text[p + 1])) * 16 + HexDigit(text[p + 2])
        invariant i == 4 ==> out == ((HexDigit(text[p]) * 16 + HexDigit(text[p + 1])) * 16 + HexDigit(text[p + 2])) * 16
                                    + HexDigit(text[p + 3])
      {
        if HexDigit(text[p + i]) < 0 {
          error := true;
          return false, out;
        }
        out := out * 16 + HexDigit(text[p + i]);
      }
      p := p + 4;
      return true, out;
    }

    /** The body of parseString's loop, when the character is not the closing quote. */
    method ParseChar() returns (ok: bool, out: Text)
      requires p <= |text|
      modifies this`p, this`error
      ensures Stepped(ok, OneChar(text, old(p))) && (ok ==> out == OneChar(text, old(p)).value)
      ensures ok ==> error == old(error)
    {
      out := [];
      if p >= |text| {
        error := true;
        return false, out;
      }
      var c := text[p];
      if c == BACKSLASH {
        p := p + 1;
        if p >= |text| {
          error := true;
          return false, out;
        }
        var esc := text[p];
        p := p + 1;
        if ShortEscape(esc) >= 0 {
          out := [ShortEscape(esc)];
        } else if esc == 0x75 {
          var cp;
          ok, cp := ParseHex4();
          if !ok { return false, out; }
          out := Utf8(cp);
        } else {
          error := true;
          return false, out;
        }
      } else if c < 0x20 {
        error := true;
        return false, out;
      } else {
        out := [c];
        p := p + 1;
      }
      return true, out;
    }

    method ParseString() returns (ok: bool, out: Text)
      requires p <= |text|
      modifies this`p, this`error
      ensures Stepped(ok, StringAt(text, old(p))) && (ok ==> out == StringAt(text, old(p)).value)
      ensures ok ==> error == old(error)
    {
      hide OneChar;
      out := [];
      ok := Consume(QUOTE);
      if !ok { return; }
      ghost var start := p;
      PrependLaws([], [], StringRest(text, p));
      while true
        invariant p <= |text| && error == old(error)
        invariant StringRest(text, start) == Prepend(out, StringRest(text, p))
        decreases |text| - p
      {
        if p < |text| && text[p] == QUOTE {
          p := p + 1;
          return true, out;
        }
        var c;
        ok, c := ParseChar();
        if !ok { return; }
        PrependLaws(out, c, StringRest(text, p));
        out := out + c;
      }
    }

    method SkipDigits()
      requires p <= |text|
      modifies this`p
      ensures p == Digits(text, old(p))
    {
      while p < |text| && IsDigit(text[p])
        invariant p <= |text| && Digits(text, p) == Digits(text, old(p))
      {
        p := p + 1;
      }
    }

    /** At least one digit. */
    method ParseDigits() returns (ok: bool)
      requires p <= |text|
      modifies this`p, this`error
      ensures Stepped(ok, SomeDigits(text, old(p)))
      ensures ok ==> error == old(error)
    {
      if p >= |text| || !IsDigit(text[p]) {
        error := true;
        return false;
      }
      SkipDigits();
      return true;
    }

    method ParseFraction() returns (ok: bool)
      requires p <= |text|
      modifies this`p, this`error
      ensures Stepped(ok, Fraction(text, old(p)))
      ensures ok ==> error == old(error)
    {
      ok := true;
      if p < |text| && text[p] == 0x2E {
        p := p + 1;
        ok := ParseDigits();
      }
    }

    method ParseExponent() returns (ok: bool)
      requires p <= |text|
      modifies this`p, this`error
      ensures Stepped(ok, Exponent(text, old(p)))
      ensures ok ==> error == old(error)
    {
      hide SomeDigits;
      ok := true;
      if p < |text| && (text[p] == 0x65 || text[p] == 0x45) {
        p := p + 1;
        if p < |text| && (text[p] == 0x2B || text[p] == 0x2D) { p := p + 1; }
        ok := ParseDigits();
      }
    }

    method ParseNumber() returns (ok: bool, out: Text)
      requires p <= |text|
      modifies this`p, this`error
      ensures Stepped(ok, NumberAt(text, old(p))) && (ok ==> out == NumberAt(text, old(p)).value)
      ensures ok ==> error == old(error)
    {
      hide SomeDigits, Fraction, Exponent;
      out := [];
      var start := p;
      if p < |text| && text[p] == 0x2D { p := p + 1; }
      ok := ParseDigits();
      if !ok { return; }
      ok := ParseFraction();
      if !ok { return; }
      ok := ParseExponent();
      if !ok { return; }
      return true, text[start..p];
    }

    method ParseLiteral(literal: Text) returns (ok: bool)
      requires p <= |text|
      modifies this`p, this`error
      ensures ok == LiteralAt(text, old(p), literal) && p == (if ok then old(p) + |literal| else old(p))
      ensures if ok then error == old(error) else error
    {
      if |text| - p < |literal| || text[p..p + |literal|] != literal {
        error := true;
        return false;
      }
      p := p + |literal|;
      return true;
    }

    /** parseValue: the depth is back where it was, whether or not a value was found. */
    method ParseValue() returns (ok: bool, out: Value)
      requires p <= |text|
      modifies this`p, this`error, this`depth
      ensures depth == old(depth)
      ensures Stepped(ok, ValueAt(text, old(p), old(depth))) && (ok ==> out == ValueAt(text, old(p), old(depth)).value)
      ensures ok ==> error == old(error)
      decreases MAX_DEPTH - depth, 0
    {
      hide ContentAt;
      out := Value(Null, 0, 0);
      depth := depth + 1;
      if depth > MAX_DEPTH {
        error := true;
        depth := depth - 1;
        return false, out;
      }
      SkipBlanks();
      var valueStart := p;
      var content;
      ok, content := ParseValueInner();
      if ok {
        out := Value(content, valueStart, p);
      }
      depth := depth - 1;
    }

    method ParseValueInner() returns (ok: bool, out: Content)
      requires p <= |text| && depth <= MAX_DEPTH
      modifies this`p, this`error, this`depth
      ensures depth == old(depth)
      ensures Stepped(ok, ContentAt(text, old(p), depth)) && (ok ==> out == ContentAt(text, old(p), depth).value)
      ensures ok ==> error == old(error)
      decreases MAX_DEPTH - depth, 2
    {
      hide StringAt, NumberAt, MembersAt, ItemsAt;
      out := Null;
      if p >= |text| {
        error := true;
        return false, out;
      }
      var c := text[p];
      if c == OPEN_BRACE {
        ok, out := ParseObject();
      } else if c == OPEN_BRACKET {
        ok, out := ParseArray();
      } else if c == QUOTE {
        var s;
        ok, s := ParseString();
        out := String(s);
      } else if c == TRUE[0] {
        ok := ParseLiteral(TRUE);
        out := Bool(true);
      } else if c == FALSE[0] {
        ok := ParseLiteral(FALSE);
        out := Bool(false);
      } else if c == NULL[0] {
        ok := ParseLiteral(NULL);
        out := Null;
      } else if c == 0x2D || IsDigit(c) {
        var n;
        ok, n := ParseNumber();
        out := Number(n);
      } else {
        error := true;
        ok := false;
      }
    }

    /** A comma, after which there is more, or the closing character. */
    method ParseSeparator(close: Octet) returns (ok: bool, more: bool)
      requires p <= |text| && close != COMMA
      modifies this`p, this`error
      ensures more == Is(text, SkipWs(text, old(p)), COMMA)
      ensures ok == (more || Is(text, SkipWs(text, old(p)), close))
      ensures if ok then p == SkipWs(text, old(p)) + 1 <= |text| && error == old(error) else error
    {
      SkipBlanks();
      more := false;
      if p >= |text| {
        error := true;
        return false, more;
      }
      if text[p] == COMMA {
        p := p + 1;
        return true, true;
      }
      if text[p] == close {
        p := p + 1;
        return true, false;
      }
      error := true;
      return false, more;
    }

    /** One member. */
    method ParseMember() returns (ok: bool, out: Member)
      requires p <= |text| && depth <= MAX_DEPTH
      modifies this`p, this`error, this`depth
      ensures depth == old(depth)
      ensures Stepped(ok, MemberAt(text, old(p), depth)) && (ok ==> out == MemberAt(text, old(p), depth).value)
      ensures ok ==> error == old(error)
      decreases MAX_DEPTH - depth, 1, 0
    {
      hide StringAt, ValueAt;
      out := Member([], Value(Null, 0, 0));
      SkipBlanks();
      var key;
      ok, key := ParseString();
      if !ok { return; }
      SkipBlanks();
      ok := Consume(COLON);
      if !ok { return; }
      SkipBlanks();
      var v;
      ok, v := ParseValue();
      if !ok { return; }
      return true, Member(key, v);
    }

    /** One item. */
    method ParseItem() returns (ok: bool, out: Value)
      requires p <= |text| && depth <= MAX_DEPTH
      modifies this`p, this`error, this`depth
      ensures depth == old(depth)
      ensures Stepped(ok, ItemAt(text, old(p), depth)) && (ok ==> out == ItemAt(text, old(p), depth).value)
      ensures ok ==> error == old(error)
      decreases MAX_DEPTH - depth, 1, 0
    {
      SkipBlanks();
      ok, out := ParseValue();
    }

    method ParseObject() returns (ok: bool, out: Content)
      requires p < |text| && text[p] == OPEN_BRACE && depth <= MAX_DEPTH
      modifies this`p, this`error, this`depth
      ensures depth == old(depth)
      ensures Stepped(ok, ContentAt(text, old(p), depth)) && (ok ==> out == ContentAt(text, old(p), depth).value)
      ensures ok ==> error == old(error)
      decreases MAX_DEPTH - depth, 1, |text| - p + 1
    {
      hide MemberAt, SkipWs;
      out := Object([]);
      ok := Consume(OPEN_BRACE);
      if !ok { return; }
      SkipBlanks();
      if p < |text| && text[p] == CLOSE_BRACE {
        p := p + 1;
        return true, out;
      }
      var members: seq<Member> := [];
      ghost var start := p;
      PrependLaws(members, members, MembersAt(text, p, depth));
      while true
        invariant old(p) < p <= |text| && depth == old(depth) && error == old(error)
        invariant MembersAt(text, start, depth) == Prepend(members, MembersAt(text, p, depth))
        decreases |text| - p
      {
        var m;
        ok, m := ParseMember();
        if !ok { return; }
        ghost var before := members;
        members := members + [m];
        var more;
        ok, more := ParseSeparator(CLOSE_BRACE);
        if !ok { return; }
        if !more { return true, Object(members); }
        PrependLaws(before, [m], MembersAt(text, p, depth));
      }
    }

    method ParseArray() returns (ok: bool, out: Content)
      requires p < |text| && text[p] == OPEN_BRACKET && depth <= MAX_DEPTH
      modifies this`p, this`error, this`depth
      ensures depth == old(depth)
      ensures Stepped(ok, ContentAt(text, old(p), depth)) && (ok ==> out == ContentAt(text, old(p), depth).value)
      ensures ok ==> error == old(error)
      decreases MAX_DEPTH - depth, 1, |text| - p + 1
    {
      hide ItemAt, SkipWs;
      out := Array([]);
      ok := Consume(OPEN_BRACKET);
      if !ok { return; }
      SkipBlanks();
      if p < |text| && text[p] == CLOSE_BRACKET {
        p := p + 1;
        return true, out;
      }
      var items: seq<Value> := [];
      ghost var start := p;
      PrependLaws(items, items, ItemsAt(text, p, depth));
      while true
        invariant old(p) < p <= |text| && depth == old(depth) && error == old(error)
        invariant ItemsAt(text, start, depth) == Prepend(items, ItemsAt(text, p, depth))
        decreases |text| - p
      {
        var v;
        ok, v := ParseItem();
        if !ok { return; }
        ghost var before := items;
        items := items + [v];
        var more;
        ok, more := ParseSeparator(CLOSE_BRACKET);
        if !ok { return; }
        if !more { return true, Array(items); }
        PrependLaws(before, [v], ItemsAt(text, p, depth));
      }
    }
  }

  /** parse, into a fresh value. */
  method ParseText(text: Text) returns (ok: bool, out: Value)
    ensures ok == Parse(text).At? && (ok ==> out == Parse(text).value)
  {
    hide ValueAt;
    out := Value(Null, 0, 0);
    if |text| > MAX_BYTES { return false, out; }
    var parser := new Parser(text);
    parser.SkipBlanks();
    ok, out := parser.ParseValue();
    if !ok { return; }
    parser.SkipBlanks();
    if parser.p != |text| { return false, out; }
  }
}
