/** The JSON grammar as a concrete syntax tree that keeps every whitespace
    byte, with the text each tree stands for. A text is JSON exactly when some
    well-formed tree renders to it (RFC 8259, sections 2 to 7, on bytes). */
module Grammar {
  import opened Bytes

  // ----- Numbers (RFC 8259, section 6) -----

  datatype Exponent = NoExponent | Exponent(mark: byte, sign: bytes, digits: bytes)
  datatype Number = Number(minus: bool, whole: bytes, fraction: bytes, exponent: Exponent)

  ghost predicate NumberWellFormed(n: Number) {
    && n.whole != [] && AllDigits(n.whole) && (n.whole[0] == ZERO ==> |n.whole| == 1)
    && AllDigits(n.fraction)
    && (n.exponent.Exponent? ==>
          && (n.exponent.mark == 101 || n.exponent.mark == 69)
          && (n.exponent.sign == [] || n.exponent.sign == [PLUS] || n.exponent.sign == [MINUS])
          && n.exponent.digits != [] && AllDigits(n.exponent.digits))
  }

  ghost function ExponentText(e: Exponent): bytes {
    if e.NoExponent? then [] else [e.mark] + e.sign + e.digits
  }

  ghost function FractionText(digits: bytes): bytes {
    if digits == [] then [] else [POINT] + digits
  }

  ghost function NumberText(n: Number): bytes {
    (if n.minus then [MINUS] else []) + n.whole + FractionText(n.fraction) + ExponentText(n.exponent)
  }

  ghost predicate IsNumber(token: bytes) {
    exists n :: NumberWellFormed(n) && NumberText(n) == token
  }

  // ----- Strings (RFC 8259, section 7) -----

  /** One unit of string content: an unescaped byte, a two-character escape, or
      a six-character escape with its four hex digits. */
  datatype Item = Raw(b: byte) | Escape(code: byte) | Unicode(hex: bytes)

  datatype Chars = Done | Char(item: Item, rest: Chars)

  predicate IsPlain(b: int) {
    b != QUOTE && b != BACKSLASH && 0x20 <= b
  }

  predicate IsHex(b: int) {
    48 <= b <= 57 || 97 <= b <= 102 || 65 <= b <= 70
  }

  /** The two-character escapes stand for one byte each. */
  predicate IsShortEscape(code: int) {
    code == 34 || code == 92 || code == 47 || code == 98 || code == 102 || code == 110 || code == 114 || code == 116
  }

  ghost predicate IsHex4(h: bytes) {
    |h| == 4 && IsHex(h[0]) && IsHex(h[1]) && IsHex(h[2]) && IsHex(h[3])
  }

  ghost predicate ItemWellFormed(i: Item) {
    match i
    case Raw(b) => IsPlain(b)
    case Escape(code) => IsShortEscape(code)
    case Unicode(h) => IsHex4(h)
  }

  ghost function ItemText(i: Item): bytes {
    match i
    case Raw(b) => [b]
    case Escape(code) => [BACKSLASH, code]
    case Unicode(h) => [BACKSLASH, 117] + h
  }

  ghost predicate CharsWellFormed(c: Chars) {
    c.Char? ==> ItemWellFormed(c.item) && CharsWellFormed(c.rest)
  }

  /** The content of a string up to and including its closing quote. */
  ghost function CharsText(c: Chars): bytes {
    match c
    case Done => [QUOTE]
    case Char(i, rest) => ItemText(i) + CharsText(rest)
  }

  ghost function StringText(c: Chars): bytes {
    [QUOTE] + CharsText(c)
  }

  // ----- Values -----

  datatype Word = True | False | Null

  /** `Box` is an object or an array. A `Body` is what follows the opening
      bracket: entries and then the closing bracket. `before` is the whitespace
      before a comma or bracket (before the first entry, all of its leading
      whitespace), `lead` the whitespace between a comma and an object key,
      `gap` the whitespace directly before a value. */
  datatype Node =
    | Literal(word: Word)
    | Num(token: bytes)
    | Str(chars: Chars)
    | Box(isObject: bool, body: Body)
  datatype Body =
    | End(before: bytes)
    | Entry(before: bytes, lead: bytes, key: Key, gap: bytes, value: Node, rest: Body)
  datatype Key = NoKey | Key(chars: Chars, colonGap: bytes)
  datatype Document = Document(lead: bytes, value: Node, trail: bytes)

  ghost function WordText(w: Word): bytes {
    match w
    case True => [116, 114, 117, 101]
    case False => [102, 97, 108, 115, 101]
    case Null => [110, 117, 108, 108]
  }

  function Opener(isObject: bool): byte {
    if isObject then 123 else 91
  }

  function Closer(isObject: bool): byte {
    if isObject then 125 else 93
  }

  ghost function CommaText(first: bool): bytes {
    if first then [] else [COMMA]
  }

  ghost function KeyText(k: Key): bytes {
    match k
    case NoKey => []
    case Key(c, colonGap) => StringText(c) + colonGap + [COLON]
  }

  ghost function NodeText(n: Node): bytes
    decreases n
  {
    match n
    case Literal(w) => WordText(w)
    case Num(token) => token
    case Str(c) => StringText(c)
    case Box(isObject, body) => [Opener(isObject)] + BodyText(isObject, body, true)
  }

  ghost function BodyText(isObject: bool, b: Body, first: bool): bytes
    decreases b
  {
    match b
    case End(before) => before + [Closer(isObject)]
    case Entry(before, lead, key, gap, value, rest) =>
      before + (CommaText(first) + (lead + (KeyText(key) + (gap + (NodeText(value) + BodyText(isObject, rest, false))))))
  }

  ghost function DocumentText(d: Document): bytes {
    d.lead + (NodeText(d.value) + d.trail)
  }

  ghost predicate KeyWellFormed(isObject: bool, k: Key) {
    if isObject then k.Key? && CharsWellFormed(k.chars) && AllSpace(k.colonGap) else k.NoKey?
  }

  ghost predicate NodeWellFormed(n: Node)
    decreases n
  {
    match n
    case Literal(_) => true
    case Num(token) => IsNumber(token)
    case Str(c) => CharsWellFormed(c)
    case Box(isObject, body) => BodyWellFormed(isObject, body, true)
  }

  /** The whitespace before a first entry is all in `before`; an array has no
      key, so the whitespace after its commas is all in `gap`. */
  ghost predicate BodyWellFormed(isObject: bool, b: Body, first: bool)
    decreases b
  {
    match b
    case End(before) => AllSpace(before)
    case Entry(before, lead, key, gap, value, rest) =>
      && AllSpace(before) && AllSpace(lead) && AllSpace(gap)
      && (if isObject then first ==> lead == [] else lead == [] && (first ==> gap == []))
      && KeyWellFormed(isObject, key)
      && NodeWellFormed(value)
      && BodyWellFormed(isObject, rest, false)
  }

  ghost predicate DocumentWellFormed(d: Document) {
    AllSpace(d.lead) && NodeWellFormed(d.value) && AllSpace(d.trail)
  }

  // ----- Decoded strings -----

  function HexDigit(b: byte): (v: int)
    ensures IsHex(b) <==> 0 <= v
    ensures v < 16
  {
    if 48 <= b <= 57 then b - 48
    else if 97 <= b <= 102 then 10 + (b - 97)
    else if 65 <= b <= 70 then 10 + (b - 65)
    else -1
  }

  ghost function HexValue(h: bytes): (v: nat)
    requires IsHex4(h)
    ensures v < 0x10000
  {
    ((HexDigit(h[0]) * 16 + HexDigit(h[1])) * 16 + HexDigit(h[2])) * 16 + HexDigit(h[3])
  }

  predicate IsHighSurrogate(v: int) {
    0xD800 <= v <= 0xDBFF
  }

  predicate IsLowSurrogate(v: int) {
    0xDC00 <= v <= 0xDFFF
  }

  function PairValue(high: int, low: int): (v: int)
    requires IsHighSurrogate(high) && IsLowSurrogate(low)
    ensures 0x10000 <= v <= 0x10FFFF
  {
    0x10000 + (high - 0xD800) * 0x400 + (low - 0xDC00)
  }

  /** UTF-8 (RFC 3629, section 3). */
  function Utf8(v: int): (r: bytes)
    requires 0 <= v <= 0x10FFFF
    ensures 1 <= |r| <= 4
  {
    if v <= 0x7F then [v]
    else if v <= 0x7FF then [0xC0 + v / 64, 0x80 + v % 64]
    else if v <= 0xFFFF then [0xE0 + v / 4096, 0x80 + v / 64 % 64, 0x80 + v % 64]
    else [0xF0 + v / 262144, 0x80 + v / 4096 % 64, 0x80 + v / 64 % 64, 0x80 + v % 64]
  }

  function ShortEscapeByte(code: byte): byte
    requires IsShortEscape(code)
  {
    if code == 98 then 8
    else if code == 102 then 12
    else if code == 110 then 10
    else if code == 114 then 13
    else if code == 116 then 9
    else code
  }

  ghost predicate IsHigh(i: Item) {
    i.Unicode? && IsHex4(i.hex) && IsHighSurrogate(HexValue(i.hex))
  }

  ghost predicate IsLow(i: Item) {
    i.Unicode? && IsHex4(i.hex) && IsLowSurrogate(HexValue(i.hex))
  }

  /** Every high surrogate escape is directly followed by a low one, and no low
      one stands alone. */
  ghost predicate Paired(c: Chars) {
    match c
    case Done => true
    case Char(i, rest) =>
      if IsHigh(i) then rest.Char? && IsLow(rest.item) && Paired(rest.rest)
      else !IsLow(i) && Paired(rest)
  }

  ghost function DecodeItem(i: Item): bytes {
    match i
    case Raw(b) => [b]
    case Escape(code) => if IsShortEscape(code) then [ShortEscapeByte(code)] else []
    case Unicode(h) => if IsHex4(h) then Utf8(HexValue(h)) else []
  }

  /** The bytes a string stands for. */
  ghost function Decode(c: Chars): bytes {
    match c
    case Done => []
    case Char(i, rest) =>
      if IsHigh(i) && rest.Char? && IsLow(rest.item) then
        Utf8(PairValue(HexValue(i.hex), HexValue(rest.item.hex))) + Decode(rest.rest)
      else
        DecodeItem(i) + Decode(rest)
  }
}
