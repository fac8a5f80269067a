/** The grammar that src/Helpers/JsonReader.hpp accepts (RFC 8259 with limits of its own), apart from the parser: syntax
    trees with all their white space, what each looks like and what it stands for.  The parser accepts exactly what some
    tree looks like, and returns what it stands for. */
module JsonGrammar {
  import opened Numbers
  import opened JsonReader

  // ---------------------------------------------------------------- what a text stands for

  /** A value without its place in the text; a number is its lexeme. */
  datatype Json =
    | JNull
    | JBool(b: bool)
    | JNumber(lexeme: Text)
    | JString(bytes: Text)
    | JArray(items: seq<Json>)
    | JObject(members: seq<Entry>)

  datatype Entry = Entry(key: Text, value: Json)

  function Bare(v: Value): Json { BareContent(v.content) }

  function BareContent(c: Content): Json {
    match c
    case Null => JNull
    case Bool(b) => JBool(b)
    case Number(lexeme) => JNumber(lexeme)
    case String(s) => JString(s)
    case Array(vs) => JArray(BareItems(vs))
    case Object(ms) => JObject(BareMembers(ms))
  }

  function BareItems(vs: seq<Value>): seq<Json> {
    if vs == [] then [] else [Bare(vs[0])] + BareItems(vs[1..])
  }

  function BareMembers(ms: seq<Member>): seq<Entry> {
    if ms == [] then [] else [Entry(ms[0].key, Bare(ms[0].value))] + BareMembers(ms[1..])
  }

  // ---------------------------------------------------------------- characters

  function Code(c: char): Octet { c as int % 256 }

  function Ascii(s: string): Text { seq(|s|, i requires 0 <= i < |s| => Code(s[i])) }

  /** A hex digit as it is written. */
  datatype Digit = Digit(value: nat, upper: bool)

  predicate DigitFits(d: Digit) { d.value < 16 }

  function DigitText(d: Digit): Octet
    requires DigitFits(d)
  {
    if d.upper then Code("0123456789ABCDEF"[d.value]) else Code("0123456789abcdef"[d.value])
  }

  /** One character of a string as it is written: itself, \c, or \uabcd. */
  datatype Ch = Plain(byte: Octet) | Short(letter: char) | Hex(a: Digit, b: Digit, c: Digit, d: Digit)

  predicate ChFits(ch: Ch) {
    match ch
    case Plain(byte) => byte >= 0x20 && byte != Code('"') && byte != Code('\\')
    case Short(letter) => letter in "\"\\/bfnrt"
    case Hex(a, b, c, d) => DigitFits(a) && DigitFits(b) && DigitFits(c) && DigitFits(d)
  }

  function ChText(ch: Ch): (text: Text)
    requires ChFits(ch)
    ensures |text| > 0
  {
    match ch
    case Plain(byte) => [byte]
    case Short(letter) => [Code('\\'), Code(letter)]
    case Hex(a, b, c, d) => [Code('\\'), Code('u'), DigitText(a), DigitText(b), DigitText(c), DigitText(d)]
  }

  function CodePoint(a: Digit, b: Digit, c: Digit, d: Digit): nat {
    0x1000 * a.value + 0x100 * b.value + 0x10 * c.value + d.value
  }

  function ChBytes(ch: Ch): Text
    requires ChFits(ch)
  {
    match ch
    case Plain(byte) => [byte]
    case Short('b') => [8]
    case Short('t') => [9]
    case Short('n') => [10]
    case Short('f') => [12]
    case Short('r') => [13]
    case Short(letter) => [Code(letter)]
    case Hex(a, b, c, d) => Utf8(CodePoint(a, b, c, d))
  }

  /** A UTF-8 decoder: the code point of a sequence, if it is one of the shortest form. */
  function Decoded(bytes: Text): int {
    var b: seq<int> := seq(|bytes|, i requires 0 <= i < |bytes| => bytes[i] as int);
    if |b| == 1 && b[0] < 0x80 then b[0]
    else if |b| == 2 && 0xC2 <= b[0] < 0xE0 && 0x80 <= b[1] < 0xC0 then 0x40 * (b[0] - 0xC0) + (b[1] - 0x80)
    else if |b| == 3 && 0xE0 <= b[0] < 0xF0 && 0x80 <= b[1] < 0xC0 && 0x80 <= b[2] < 0xC0 && (b[0] == 0xE0 ==> b[1] >= 0xA0) then
      0x1000 * (b[0] - 0xE0) + 0x40 * (b[1] - 0x80) + (b[2] - 0x80)
    else -1
  }

  /** A \u escape stands for the UTF-8 sequence of its code point. */
  lemma EscapeIsUtf8(cp: nat)
    requires cp < 0x1_0000
    ensures Decoded(Utf8(cp)) == cp
  {}

  predicate ChsFit(chs: seq<Ch>) { forall i :: 0 <= i < |chs| ==> ChFits(chs[i]) }

  function ChsText(chs: seq<Ch>): Text
    requires ChsFit(chs)
  {
    if chs == [] then [] else ChText(chs[0]) + ChsText(chs[1..])
  }

  function ChsBytes(chs: seq<Ch>): Text
    requires ChsFit(chs)
  {
    if chs == [] then [] else ChBytes(chs[0]) + ChsBytes(chs[1..])
  }

  function StringText(chs: seq<Ch>): (text: Text)
    requires ChsFit(chs)
    ensures |text| >= 2 && text[0] == Code('"')
  {
    Ascii("\"") + (ChsText(chs) + Ascii("\""))
  }

  // ---------------------------------------------------------------- numbers and white space

  datatype Num = Num(neg: bool, whole: Text, dot: bool, fraction: Text, exp: bool, e: char, sign: string, exponent: Text)

  predicate AllDigits(text: Text) { text != [] && forall i :: 0 <= i < |text| ==> Code('0') <= text[i] <= Code('9') }

  predicate NumFits(n: Num) {
    && AllDigits(n.whole) && (n.dot ==> AllDigits(n.fraction))
    && (n.exp ==> (n.e == 'e' || n.e == 'E') && (n.sign == "" || n.sign == "+" || n.sign == "-") && AllDigits(n.exponent))
  }

  function FractionText(n: Num): Text { if n.dot then Ascii(".") + n.fraction else [] }

  function ExponentText(n: Num): Text { if n.exp then [Code(n.e)] + (Ascii(n.sign) + n.exponent) else [] }

  function NumText(n: Num): Text {
    (if n.neg then Ascii("-") else []) + (n.whole + (FractionText(n) + ExponentText(n)))
  }

  predicate AllWs(text: Text) {
    forall i :: 0 <= i < |text| ==> text[i] == Code(' ') || text[i] == Code('\t') || text[i] == Code('\r') || text[i] == Code('\n')
  }

  // ---------------------------------------------------------------- values

  datatype Syntax =
    | SNull | STrue | SFalse
    | SNumber(n: Num)
    | SString(chs: seq<Ch>)
    | SArray(inner: Text, items: seq<Item>)        // inner: white space between the brackets if there is nothing else
    | SObject(inner: Text, members: seq<Pair>)

  datatype Item = Item(before: Text, value: Syntax, after: Text)

  datatype Pair = Pair(before: Text, key: seq<Ch>, afterKey: Text, beforeValue: Text, value: Syntax, after: Text)

  predicate Fits(s: Syntax) {
    match s
    case SNumber(n) => NumFits(n)
    case SString(chs) => ChsFit(chs)
    case SArray(inner, items) => AllWs(inner) && ItemsFit(items)
    case SObject(inner, members) => AllWs(inner) && MembersFit(members)
    case _ => true
  }

  predicate ItemsFit(items: seq<Item>) {
    items == [] || (AllWs(items[0].before) && Fits(items[0].value) && AllWs(items[0].after) && ItemsFit(items[1..]))
  }

  predicate MembersFit(members: seq<Pair>) {
    members == [] ||
    (var m := members[0];
     && AllWs(m.before) && ChsFit(m.key) && AllWs(m.afterKey) && AllWs(m.beforeValue) && Fits(m.value) && AllWs(m.after)
     && MembersFit(members[1..]))
  }

  function Shown(s: Syntax): (text: Text)
    requires Fits(s)
    ensures |text| > 0
  {
    match s
    case SNull => Ascii("null")
    case STrue => Ascii("true")
    case SFalse => Ascii("false")
    case SNumber(n) => NumText(n)
    case SString(chs) => StringText(chs)
    case SArray(inner, items) => Ascii("[") + (if items == [] then inner + Ascii("]") else ItemsText(items))
    case SObject(inner, members) => Ascii("{") + (if members == [] then inner + Ascii("}") else MembersText(members))
  }

  /** The items and the closing bracket. */
  function ItemsText(items: seq<Item>): Text
    requires ItemsFit(items) && items != []
  {
    items[0].before + (Shown(items[0].value) + (items[0].after
      + (if |items| == 1 then Ascii("]") else Ascii(",") + ItemsText(items[1..]))))
  }

  /** The members and the closing brace. */
  function MembersText(members: seq<Pair>): Text
    requires MembersFit(members) && members != []
  {
    var m := members[0];
    m.before + (StringText(m.key) + (m.afterKey + (Ascii(":") + (m.beforeValue + (Shown(m.value) + (m.after
      + (if |members| == 1 then Ascii("}") else Ascii(",") + MembersText(members[1..]))))))))
  }

  function Means(s: Syntax): Json
    requires Fits(s)
  {
    match s
    case SNull => JNull
    case STrue => JBool(true)
    case SFalse => JBool(false)
    case SNumber(n) => JNumber(NumText(n))
    case SString(chs) => JString(ChsBytes(chs))
    case SArray(_, items) => JArray(ItemsMean(items))
    case SObject(_, members) => JObject(MembersMean(members))
  }

  function ItemsMean(items: seq<Item>): seq<Json>
    requires ItemsFit(items)
  {
    if items == [] then [] else [Means(items[0].value)] + ItemsMean(items[1..])
  }

  function MembersMean(members: seq<Pair>): seq<Entry>
    requires MembersFit(members)
  {
    if members == [] then [] else [Entry(ChsBytes(members[0].key), Means(members[0].value))] + MembersMean(members[1..])
  }

  /** How many values lie within each other, this one included. */
  function Levels(s: Syntax): nat {
    match s
    case SArray(_, items) => 1 + ItemLevels(items)
    case SObject(_, members) => 1 + MemberLevels(members)
    case _ => 1
  }

  function Larger(a: nat, b: nat): nat { if a < b then b else a }

  function ItemLevels(items: seq<Item>): nat {
    if items == [] then 0 else Larger(Levels(items[0].value), ItemLevels(items[1..]))
  }

  function MemberLevels(members: seq<Pair>): nat {
    if members == [] then 0 else Larger(Levels(members[0].value), MemberLevels(members[1..]))
  }
}
