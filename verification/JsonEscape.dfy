/** jsonEscapeString of src/Helpers/JsonEscape.hpp, and the proof that the reader inverts it (section 7 of
    RFC 8259). */
module JsonEscape {
  import opened Numbers
  import opened JsonReader

  function HexChar(d: nat): Octet
    requires d < 16
  {
    if d < 10 then 0x30 + d else 0x61 + (d - 10)
  }

  /** One byte of a string, escaped. */
  function Escape(c: Octet): (e: Text)
    ensures |e| > 0
  {
    if c == QUOTE then [BACKSLASH, QUOTE]
    else if c == BACKSLASH then [BACKSLASH, BACKSLASH]
    else if c == 0x08 then [BACKSLASH, 0x62]
    else if c == 0x0C then [BACKSLASH, 0x66]
    else if c == 0x0A then [BACKSLASH, 0x6E]
    else if c == 0x0D then [BACKSLASH, 0x72]
    else if c == 0x09 then [BACKSLASH, 0x74]
    else if c < 0x20 then [BACKSLASH, 0x75, 0x30, 0x30, HexChar(c / 16), HexChar(c % 16)]
    else [c]
  }

  function Escaped(s: Text): Text {
    if s == [] then [] else Escaped(s[..|s| - 1]) + Escape(s[|s| - 1])
  }

  function Quoted(s: Text): Text { [QUOTE] + Escaped(s) + [QUOTE] }

  method JsonEscapeString(input: Text) returns (out: Text)
    ensures out == Escaped(input)
  {
    out := [];
    for i := 0 to |input|
      invariant out == Escaped(input[..i])
    {
      var c := input[i];
      assert input[..i + 1][..i] == input[..i];
      if c == QUOTE { out := out + [BACKSLASH, QUOTE]; }
      else if c == BACKSLASH { out := out + [BACKSLASH, BACKSLASH]; }
      else if c == 0x08 { out := out + [BACKSLASH, 0x62]; }
      else if c == 0x0C { out := out + [BACKSLASH, 0x66]; }
      else if c == 0x0A { out := out + [BACKSLASH, 0x6E]; }
      else if c == 0x0D { out := out + [BACKSLASH, 0x72]; }
      else if c == 0x09 { out := out + [BACKSLASH, 0x74]; }
      else if c < 0x20 {
        out := out + [BACKSLASH, 0x75, 0x30, 0x30];
        out := out + [HexChar(c / 16)];
        out := out + [HexChar(c % 16)];
      } else {
        out := out + [c];
      }
    }
    assert input[..|input|] == input;
  }

  // ---------------------------------------------------------------- reading it back

  lemma HexReads(d: nat)
    requires d < 16
    ensures HexDigit(HexChar(d)) == d
  {}

  /** Whatever surrounds an escaped byte, the reader takes exactly it and returns the byte. */
  lemma EscapeReads(before: Text, c: Octet, after: Text)
    ensures var t := before + Escape(c) + after;
            && !Is(t, |before|, QUOTE)
            && OneChar(t, |before|) == At([c], |before| + |Escape(c)|)
  {
    var t, p, e := before + Escape(c) + after, |before|, Escape(c);
    assert forall i :: 0 <= i < |e| ==> t[p + i] == e[i];
    assert t[p] == e[0];
    if e == [c] {
    } else if |e| == 2 {
      assert t[p + 1] == e[1];
    } else {
      assert t[p + 1] == e[1] && t[p + 2] == e[2] && t[p + 3] == e[3] && t[p + 4] == e[4] && t[p + 5] == e[5];
      HexReads(c / 16);
      HexReads(c % 16);
    }
  }

  lemma EscapedSnoc(s: Text, c: Octet)
    ensures Escaped(s + [c]) == Escaped(s) + Escape(c)
  {
    assert (s + [c])[..|s|] == s;
  }

  lemma {:induction false} EscapedCons(c: Octet, s: Text)
    ensures Escaped([c] + s) == Escape(c) + Escaped(s)
  {
    hide Escape, Escaped;
    EscapedSnoc([], c);
    EscapedEmpty();
    assert [] + [c] == [c];
    if s == [] {
      assert [c] + s == [c];
    } else {
      var init, last := s[..|s| - 1], s[|s| - 1];
      EscapedCons(c, init);
      EscapedSnoc([c] + init, last);
      EscapedSnoc(init, last);
      assert [c] + s == [c] + init + [last] && s == init + [last];
    }
  }

  lemma EscapedEmpty()
    ensures Escaped([]) == []
  {}

  /** The reader consumes the escaped string and its closing quote, and returns the string. */
  lemma {:induction false} EscapedReads(before: Text, s: Text, after: Text)
    ensures StringRest(before + Escaped(s) + [QUOTE] + after, |before|) == At(s, |before| + |Escaped(s)| + 1)
    decreases |s|
  {
    hide Escape, Escaped, OneChar;
    EscapedEmpty();
    if s == [] {
      assert (before + [] + [QUOTE] + after)[|before|] == QUOTE;
    } else {
      var e, rest := Escape(s[0]), Escaped(s[1..]);
      FirstOf(s);
      EscapedCons(s[0], s[1..]);
      Regroup(before, e, rest, after);
      EscapeReads(before, s[0], rest + [QUOTE] + after);
      EscapedReads(before + e, s[1..], after);
    }
  }

  lemma FirstOf(s: Text)
    requires s != []
    ensures s == [s[0]] + s[1..]
  {}

  lemma Regroup(before: Text, e: Text, rest: Text, after: Text)
    ensures before + (e + rest) + [QUOTE] + after == before + e + (rest + [QUOTE] + after)
    ensures before + (e + rest) + [QUOTE] + after == before + e + rest + [QUOTE] + after
  {}

  /** For every byte string, parsing its quoted escape consumes exactly that text and returns the string,
      unless the text is over the size limit, which parse refuses whatever the text holds. */
  lemma EscapeParseRoundTrip(s: Text)
    ensures Parse(Quoted(s)) ==
            if |Quoted(s)| <= MAX_BYTES then At(Value(String(s), 0, |Quoted(s)|), |Quoted(s)|) else Fail
  {
    hide Escaped;
    var t := Quoted(s);
    assert t == [QUOTE] + Escaped(s) + [QUOTE] + [];
    EscapedReads([QUOTE], s, []);
    assert t[0] == QUOTE;
    assert SkipWs(t, 0) == 0 && SkipWs(t, |t|) == |t|;
  }

  /** Escaping never makes a string shorter, nor more than six times as long. */
  lemma {:induction false} EscapedLength(s: Text)
    ensures |s| <= |Escaped(s)| <= 6 * |s|
  {
    if s != [] {
      EscapedLength(s[..|s| - 1]);
    }
  }

  /** A string as long as the size limit never comes back: its quotes alone are too much. */
  lemma LongStringIsRefused()
    ensures Parse(Quoted(seq(MAX_BYTES, i => 0x61))) == Fail
  {
    hide Escaped;
    var s: Text := seq(MAX_BYTES, i => 0x61);
    EscapedLength(s);
    EscapeParseRoundTrip(s);
  }
}
