/** The bounded recursive parser of src/Helpers/JsonReader.hpp.  A text is its bytes; a number is kept as its
    lexeme, which strtod would turn into a double. */
module JsonReader {
  import opened Numbers

  type Text = seq<Octet>

  const MAX_DEPTH := 5
  const MAX_BYTES := 16384

  /** Value with the offsets of its exact source bytes. */
  datatype Value = Value(content: Content, spanStart: nat, spanEnd: nat)

  datatype Content =
    | Null
    | Bool(boolVal: bool)
    | Number(lexeme: Text)
    | String(strVal: Text)
    | Array(arrVal: seq<Value>)
    | Object(objVal: seq<Member>)

  datatype Member = Member(key: Text, value: Value)

  /** What a step of the parser found, and where it stopped. */
  datatype Found<T> = Fail | At(value: T, end: nat)

  // ---------------------------------------------------------------- characters

  const QUOTE: Octet := 0x22
  const BACKSLASH: Octet := 0x5C
  const COMMA: Octet := 0x2C
  const COLON: Octet := 0x3A
  const OPEN_BRACE: Octet := 0x7B
  const CLOSE_BRACE: Octet := 0x7D
  const OPEN_BRACKET: Octet := 0x5B
  const CLOSE_BRACKET: Octet := 0x5D

  predicate IsWs(c: Octet) { c == 0x20 || c == 0x09 || c == 0x0D || c == 0x0A }

  predicate IsDigit(c: Octet) { 0x30 <= c <= 0x39 }

  /** Whether the text has the character at p. */
  predicate Is(t: Text, p: nat, c: Octet) { p < |t| && t[p] == c }

  predicate DigitAt(t: Text, p: nat) { p < |t| && IsDigit(t[p]) }

  function SkipWs(t: Text, p: nat): (q: nat)
    ensures p <= q && (p <= |t| ==> q <= |t|)
    ensures q < |t| ==> !IsWs(t[q])
    decreases |t| - p
  {
    if p < |t| && IsWs(t[p]) then SkipWs(t, p + 1) else p
  }

  function Digits(t: Text, p: nat): (q: nat)
    ensures p <= q && (p <= |t| ==> q <= |t|)
    decreases |t| - p
  {
    if DigitAt(t, p) then Digits(t, p + 1) else p
  }

  // ---------------------------------------------------------------- strings

  function HexDigit(c: Octet): int {
    if 0x30 <= c <= 0x39 then c - 0x30
    else if 0x61 <= c <= 0x66 then c - 0x61 + 10
    else if 0x41 <= c <= 0x46 then c - 0x41 + 10
    else -1
  }

  /** The four digits at p, most significant first. */
  function Hex4(t: Text, p: nat): Found<nat> {
    if p + 4 > |t| then Fail
    else
      var a, b, c, d := HexDigit(t[p]), HexDigit(t[p + 1]), HexDigit(t[p + 2]), HexDigit(t[p + 3]);
      if a < 0 || b < 0 || c < 0 || d < 0 then Fail else At(((a * 16 + b) * 16 + c) * 16 + d, p + 4)
  }

  /** appendUtf8, for a code point of four hex digits. */
  function Utf8(cp: nat): Text {
    if cp <= 0x7F then [cp]
    else if cp <= 0x7FF then [0xC0 + cp / 64, 0x80 + cp % 64]
    else if cp <= 0xFFFF then [0xE0 + cp / 4096, 0x80 + cp / 64 % 64, 0x80 + cp % 64]
    else []
  }

  /** What the escape \c stands for, if it is not \u. */
  function ShortEscape(c: Octet): int {
    if c == QUOTE then QUOTE
    else if c == BACKSLASH then BACKSLASH
    else if c == 0x2F then 0x2F
    else if c == 0x62 then 0x08
    else if c == 0x66 then 0x0C
    else if c == 0x6E then 0x0A
    else if c == 0x72 then 0x0D
    else if c == 0x74 then 0x09
    else -1
  }

  /** One character of a string, escaped or not, at p: its bytes, and where the next one starts. */
  function OneChar(t: Text, p: nat): (r: Found<Text>)
    ensures r.At? ==> p < r.end <= |t|
  {
    if p >= |t| then Fail
    else if t[p] == BACKSLASH then
      if p + 1 >= |t| then Fail
      else if ShortEscape(t[p + 1]) >= 0 then At([ShortEscape(t[p + 1])], p + 2)
      else if t[p + 1] == 0x75 then
        var cp := Hex4(t, p + 2);
        if cp.Fail? then Fail else At(Utf8(cp.value), cp.end)
      else Fail
    else if t[p] < 0x20 then Fail
    else At([t[p]], p + 1)
  }

  /** The rest of a string after its opening quote. */
  function StringRest(t: Text, p: nat): (r: Found<Text>)
    ensures r.At? ==> p < r.end <= |t|
    decreases |t| - p
  {
    if Is(t, p, QUOTE) then At([], p + 1)
    else
      var c := OneChar(t, p);
      if c.Fail? then Fail
      else
        var rest := StringRest(t, c.end);
        if rest.Fail? then Fail else At(c.value + rest.value, rest.end)
  }

  function StringAt(t: Text, p: nat): (r: Found<Text>)
    ensures r.At? ==> p < r.end <= |t|
  {
    if Is(t, p, QUOTE) then StringRest(t, p + 1) else Fail
  }

  // ---------------------------------------------------------------- numbers and literals

  /** Where the digits, of which there must be one, end. */
  function SomeDigits(t: Text, p: nat): (r: Found<()>)
    ensures r.At? ==> p < r.end <= |t|
  {
    if DigitAt(t, p) then At((), Digits(t, p)) else Fail
  }

  function Fraction(t: Text, p: nat): (r: Found<()>)
    requires p <= |t|
    ensures r.At? ==> p <= r.end <= |t|
  {
    if Is(t, p, 0x2E) then SomeDigits(t, p + 1) else At((), p)
  }

  function Exponent(t: Text, p: nat): (r: Found<()>)
    requires p <= |t|
    ensures r.At? ==> p <= r.end <= |t|
  {
    if Is(t, p, 0x65) || Is(t, p, 0x45) then
      SomeDigits(t, if Is(t, p + 1, 0x2B) || Is(t, p + 1, 0x2D) then p + 2 else p + 1)
    else At((), p)
  }

  function NumberAt(t: Text, p: nat): (r: Found<Text>)
    ensures r.At? ==> p < r.end <= |t|
  {
    var whole := SomeDigits(t, if Is(t, p, 0x2D) then p + 1 else p);
    if whole.Fail? then Fail
    else
      var fraction := Fraction(t, whole.end);
      if fraction.Fail? then Fail
      else
        var exponent := Exponent(t, fraction.end);
        if exponent.Fail? then Fail else At(t[p..exponent.end], exponent.end)
  }

  const TRUE: Text := [0x74, 0x72, 0x75, 0x65]
  const FALSE: Text := [0x66, 0x61, 0x6C, 0x73, 0x65]
  const NULL: Text := [0x6E, 0x75, 0x6C, 0x6C]

  predicate LiteralAt(t: Text, p: nat, literal: Text) {
    p + |literal| <= |t| && t[p..p + |literal|] == literal
  }

  // ---------------------------------------------------------------- values

  /** A value at p, with `depth` values around it. */
  function ValueAt(t: Text, p: nat, depth: nat): (r: Found<Value>)
    ensures r.At? ==> p <= r.value.spanStart < r.value.spanEnd == r.end <= |t|
    ensures r.At? ==> r.value.spanStart == SkipWs(t, p) && depth < MAX_DEPTH
    decreases MAX_DEPTH - depth, 0
  {
    if depth >= MAX_DEPTH then Fail
    else
      var start := SkipWs(t, p);
      var c := ContentAt(t, start, depth + 1);
      if c.Fail? then Fail else At(Value(c.value, start, c.end), c.end)
  }

  function ContentAt(t: Text, p: nat, depth: nat): (r: Found<Content>)
    requires depth <= MAX_DEPTH
    ensures r.At? ==> p < r.end <= |t|
    decreases MAX_DEPTH - depth, 2
  {
    if p >= |t| then Fail
    else if t[p] == OPEN_BRACE then
      var q := SkipWs(t, p + 1);
      if Is(t, q, CLOSE_BRACE) then At(Object([]), q + 1)
      else
        var m := MembersAt(t, q, depth);
        if m.Fail? then Fail else At(Object(m.value), m.end)
    else if t[p] == OPEN_BRACKET then
      var q := SkipWs(t, p + 1);
      if Is(t, q, CLOSE_BRACKET) then At(Array([]), q + 1)
      else
        var m := ItemsAt(t, q, depth);
        if m.Fail? then Fail else At(Array(m.value), m.end)
    else ScalarAt(t, p)
  }

  function ScalarAt(t: Text, p: nat): (r: Found<Content>)
    requires p < |t|
    ensures r.At? ==> p < r.end <= |t|
  {
    if t[p] == QUOTE then
      var s := StringAt(t, p);
      if s.Fail? then Fail else At(String(s.value), s.end)
    else if t[p] == TRUE[0] then if LiteralAt(t, p, TRUE) then At(Bool(true), p + 4) else Fail
    else if t[p] == FALSE[0] then if LiteralAt(t, p, FALSE) then At(Bool(false), p + 5) else Fail
    else if t[p] == NULL[0] then if LiteralAt(t, p, NULL) then At(Null, p + 4) else Fail
    else if t[p] == 0x2D || IsDigit(t[p]) then
      var n := NumberAt(t, p);
      if n.Fail? then Fail else At(Number(n.value), n.end)
    else Fail
  }

  /** One member: key, colon, value. */
  function MemberAt(t: Text, p: nat, depth: nat): (r: Found<Member>)
    requires depth <= MAX_DEPTH
    ensures r.At? ==> p < r.end <= |t|
    ensures r.At? ==> p < r.value.value.spanStart < r.value.value.spanEnd == r.end
    decreases MAX_DEPTH - depth, 1, 0
  {
    var key := StringAt(t, SkipWs(t, p));
    if key.Fail? then Fail
    else
      var colon := SkipWs(t, key.end);
      if !Is(t, colon, COLON) then Fail
      else
        var v := ValueAt(t, SkipWs(t, colon + 1), depth);
        if v.Fail? then Fail else At(Member(key.value, v.value), v.end)
  }

  /** The members up to the closing brace. */
  function MembersAt(t: Text, p: nat, depth: nat): (r: Found<seq<Member>>)
    requires depth <= MAX_DEPTH
    ensures r.At? ==> p < r.end <= |t|
    decreases MAX_DEPTH - depth, 1, if p <= |t| then |t| - p + 1 else 1
  {
    var m := MemberAt(t, p, depth);
    if m.Fail? then Fail
    else
      var q := SkipWs(t, m.end);
      if Is(t, q, COMMA) then
        var rest := MembersAt(t, q + 1, depth);
        if rest.Fail? then Fail else At([m.value] + rest.value, rest.end)
      else if Is(t, q, CLOSE_BRACE) then At([m.value], q + 1)
      else Fail
  }

  /** One item. */
  function ItemAt(t: Text, p: nat, depth: nat): (r: Found<Value>)
    requires depth <= MAX_DEPTH
    ensures r.At? ==> p <= r.value.spanStart < r.value.spanEnd == r.end <= |t|
    decreases MAX_DEPTH - depth, 1, 0
  {
    ValueAt(t, SkipWs(t, p), depth)
  }

  /** The items up to the closing bracket. */
  function ItemsAt(t: Text, p: nat, depth: nat): (r: Found<seq<Value>>)
    requires depth <= MAX_DEPTH
    ensures r.At? ==> p < r.end <= |t|
    decreases MAX_DEPTH - depth, 1, if p <= |t| then |t| - p + 1 else 1
  {
    var v := ItemAt(t, p, depth);
    if v.Fail? then Fail
    else
      var q := SkipWs(t, v.end);
      if Is(t, q, COMMA) then
        var rest := ItemsAt(t, q + 1, depth);
        if rest.Fail? then Fail else At([v.value] + rest.value, rest.end)
      else if Is(t, q, CLOSE_BRACKET) then At([v.value], q + 1)
      else Fail
  }

  /** parse: a value and nothing but white space around it, within the size limit. */
  function Parse(t: Text): (r: Found<Value>)
    ensures r.At? ==> r.value.spanStart < r.value.spanEnd <= |t|
  {
    if |t| > MAX_BYTES then Fail
    else
      var v := ValueAt(t, SkipWs(t, 0), 0);
      if v.At? && SkipWs(t, v.end) == |t| then v else Fail
  }
}
