/** What one pass over a text must do, byte by byte: a recursive descent with
    the exact status of every failure. The cursor, the two visitors and the
    transcoder are proved against these functions; `GrammarProofs` shows that
    they accept exactly the grammar. */
module Scanner {
  import opened Bytes
  import opened Grammar

  /** A limit of zero is no limit. */
  datatype Limits = Limits(maxDepth: nat, maxString: nat, maxNumber: nat, maxKey: nat, maxTotal: nat)

  /** Where entries may stand: anywhere, or only inside fewer than `levels` other
      containers, as when every entry must be indented. */
  datatype Room = AnyLevel | Below(levels: nat)

  /** `paired`: surrogate escapes must come in pairs. */
  datatype Rules = Rules(limits: Limits, paired: bool, room: Room)

  /** An entry may stand in a container that is inside `d` others. */
  predicate HasRoom(rules: Rules, d: nat) {
    rules.room.AnyLevel? || d < rules.room.levels
  }

  const UNLIMITED := Rules(Limits(0, 0, 0, 0, 0), false, AnyLevel)

  /** What a pass can fail with: the text is not JSON, or a limit is passed. */
  type Failure = st: Status | st == InvalidJson || st == Overflow witness InvalidJson

  datatype Out<T> = Good(value: T, next: nat) | Bad(status: Failure)

  ghost predicate Fails<T>(r: Out<T>, status: Status) {
    r.Bad? && r.status == status
  }

  /** The effect of reading at a position: the byte, the end of the text, or
      the total byte limit. */
  datatype Read = Byte(b: byte) | AtEnd | OverLimit

  ghost function ReadAt(s: bytes, p: nat, maxTotal: nat): Read {
    if |s| <= p then AtEnd
    else if maxTotal != 0 && maxTotal < p + 1 then OverLimit
    else Byte(s[p])
  }

  predicate Exceeds(limit: nat, n: nat) {
    limit != 0 && limit < n
  }

  /** Where the next byte that is not whitespace is read. */
  ghost function SkipSpace(s: bytes, p: nat, maxTotal: nat): (q: nat)
    ensures p <= q
    ensures p <= |s| ==> q <= |s|
    ensures ReadAt(s, q, maxTotal).Byte? ==> !IsSpace(s[q])
    decreases |s| - p
  {
    match ReadAt(s, p, maxTotal)
    case Byte(b) => if IsSpace(b) then SkipSpace(s, p + 1, maxTotal) else p
    case _ => p
  }

  ghost function ReadFailure(r: Read): Failure {
    if r.OverLimit? then Overflow else InvalidJson
  }

  // ----- Strings -----

  /** `n` more hex digits. */
  ghost function ScanHex(s: bytes, p: nat, n: nat, maxTotal: nat): (r: Out<bytes>)
    ensures r.Good? ==> r.next == p + n && |r.value| == n && (p <= |s| ==> r.next <= |s|)
    ensures r.Good? ==> forall i :: 0 <= i < n ==> IsHex(r.value[i])
    decreases n
  {
    if n == 0 then Good([], p)
    else match ReadAt(s, p, maxTotal)
      case Byte(b) =>
        if !IsHex(b) then Bad(InvalidJson)
        else (match ScanHex(s, p + 1, n - 1, maxTotal)
          case Good(h, q) => Good([b] + h, q)
          case Bad(st) => Bad(st))
      case r => Bad(ReadFailure(r))
  }

  /** One unit of string content: an item, or a surrogate pair of two items. */
  datatype Unit = One(item: Item) | Two(high: Item, low: Item)

  ghost function UnitBytes(u: Unit): bytes {
    match u
    case One(i) => DecodeItem(i)
    case Two(h, l) =>
      if IsHigh(h) && IsLow(l) then Utf8(PairValue(HexValue(h.hex), HexValue(l.hex))) else []
  }

  ghost function Prepend(u: Unit, c: Chars): Chars {
    match u
    case One(i) => Char(i, c)
    case Two(h, l) => Char(h, Char(l, c))
  }

  /** The rest of a surrogate pair after its high half. */
  ghost function ScanLowHalf(s: bytes, p: nat, high: Item, maxTotal: nat): (r: Out<Unit>)
    ensures r.Good? ==> p < r.next <= |s|
  {
    if ReadAt(s, p, maxTotal) != Byte(BACKSLASH) || ReadAt(s, p + 1, maxTotal) != Byte(117) then Bad(InvalidJson)
    else match ScanHex(s, p + 2, 4, maxTotal)
      case Bad(st) => Bad(st)
      case Good(l, q) => if IsLow(Unicode(l)) then Good(Two(high, Unicode(l)), q) else Bad(InvalidJson)
  }

  ghost function ScanUnicode(s: bytes, p: nat, rules: Rules): (r: Out<Unit>)
    ensures r.Good? ==> p < r.next <= |s|
  {
    match ScanHex(s, p, 4, rules.limits.maxTotal)
    case Bad(st) => Bad(st)
    case Good(h, q) =>
      if !rules.paired then Good(One(Unicode(h)), q)
      else if IsHigh(Unicode(h)) then ScanLowHalf(s, q, Unicode(h), rules.limits.maxTotal)
      else if IsLow(Unicode(h)) then Bad(InvalidJson)
      else Good(One(Unicode(h)), q)
  }

  /** What follows a backslash. */
  ghost function ScanEscape(s: bytes, p: nat, rules: Rules): (r: Out<Unit>)
    ensures r.Good? ==> p < r.next <= |s|
  {
    match ReadAt(s, p, rules.limits.maxTotal)
    case Byte(e) =>
      if IsShortEscape(e) then Good(One(Escape(e)), p + 1)
      else if e == 117 then ScanUnicode(s, p + 1, rules)
      else Bad(InvalidJson)
    case r => Bad(ReadFailure(r))
  }

  ghost function ScanUnit(s: bytes, p: nat, rules: Rules): (r: Out<Unit>)
    ensures r.Good? ==> p < r.next <= |s|
  {
    match ReadAt(s, p, rules.limits.maxTotal)
    case Byte(c) =>
      if c < 0x20 then Bad(InvalidJson)
      else if c == BACKSLASH then ScanEscape(s, p + 1, rules)
      else Good(One(Raw(c)), p + 1)
    case r => Bad(ReadFailure(r))
  }

  /** The rest of a string of which `n` bytes are decoded. */
  ghost function ScanChars(s: bytes, p: nat, n: nat, limit: nat, rules: Rules): (r: Out<Chars>)
    ensures r.Good? ==> p < r.next <= |s|
    decreases |s| - p
  {
    if ReadAt(s, p, rules.limits.maxTotal) == Byte(QUOTE) then Good(Done, p + 1)
    else match ScanUnit(s, p, rules)
      case Bad(st) => Bad(st)
      case Good(u, q) =>
        if Exceeds(limit, n + |UnitBytes(u)|) then Bad(Overflow)
        else (match ScanChars(s, q, n + |UnitBytes(u)|, limit, rules)
          case Bad(st) => Bad(st)
          case Good(c, e) => Good(Prepend(u, c), e))
  }

  // ----- Numbers and literals -----

  predicate IsNumberByte(b: int) {
    IsDigit(b) || b == PLUS || b == MINUS || b == POINT || b == 101 || b == 69
  }

  /** Where the run of number bytes from `p` ends, `n` of them already taken. */
  ghost function ScanRun(s: bytes, p: nat, n: nat, limits: Limits): (r: Out<()>)
    ensures r.Good? ==> p <= r.next && (p <= |s| ==> r.next <= |s|)
    decreases |s| - p
  {
    if |s| <= p || !IsNumberByte(s[p]) then Good((), p)
    else if Exceeds(limits.maxTotal, p + 1) || Exceeds(limits.maxNumber, n + 1) then Bad(Overflow)
    else ScanRun(s, p + 1, n + 1, limits)
  }

  ghost function ScanNumber(s: bytes, p: nat, limits: Limits): (r: Out<Node>)
    requires p < |s|
    ensures r.Good? ==> p < r.next <= |s|
  {
    match ScanRun(s, p + 1, 1, limits)
    case Bad(st) => Bad(st)
    case Good(_, q) => if IsNumber(s[p..q]) then Good(Num(s[p..q]), q) else Bad(InvalidJson)
  }

  /** The bytes `w`, one after the other. */
  ghost function ScanWord(s: bytes, p: nat, w: bytes, maxTotal: nat): (r: Out<()>)
    ensures r.Good? ==> r.next == p + |w| && (p <= |s| ==> r.next <= |s|)
    decreases |w|
  {
    if w == [] then Good((), p)
    else match ReadAt(s, p, maxTotal)
      case OverLimit => Bad(Overflow)
      case AtEnd => Bad(InvalidJson)
      case Byte(b) => if b == w[0] then ScanWord(s, p + 1, w[1..], maxTotal) else Bad(InvalidJson)
  }

  ghost function ScanLiteral(s: bytes, p: nat, w: Word, maxTotal: nat): (r: Out<Node>)
    ensures r.Good? ==> p < r.next <= |s|
  {
    match ScanWord(s, p + 1, WordText(w)[1..], maxTotal)
    case Bad(st) => Bad(st)
    case Good(_, q) => Good(Literal(w), q)
  }

  // ----- Values -----

  ghost function ScanString(s: bytes, p: nat, rules: Rules): (r: Out<Node>)
    ensures r.Good? ==> p < r.next <= |s|
  {
    match ScanChars(s, p, 0, rules.limits.maxString, rules)
    case Bad(st) => Bad(st)
    case Good(c, q) => Good(Str(c), q)
  }

  /** The value whose first byte is at `p`, inside `d` containers. */
  ghost function ScanNode(s: bytes, p: nat, d: nat, rules: Rules): (r: Out<Node>)
    requires p < |s|
    ensures r.Good? ==> p < r.next <= |s|
    decreases |s| - p, 0
  {
    var c := s[p];
    if c == QUOTE then ScanString(s, p + 1, rules)
    else if c == Opener(true) || c == Opener(false) then
      if rules.limits.maxDepth != 0 && rules.limits.maxDepth <= d then Bad(Overflow)
      else (match ScanBody(s, p + 1, c == Opener(true), true, d, rules)
        case Bad(st) => Bad(st)
        case Good(b, q) => Good(Box(c == Opener(true), b), q))
    else if c == 116 then ScanLiteral(s, p, True, rules.limits.maxTotal)
    else if c == 102 then ScanLiteral(s, p, False, rules.limits.maxTotal)
    else if c == 110 then ScanLiteral(s, p, Null, rules.limits.maxTotal)
    else if c == MINUS || IsDigit(c) then ScanNumber(s, p, rules.limits)
    else Bad(InvalidJson)
  }

  /** A value and the whitespace before it. */
  ghost function ScanValue(s: bytes, p: nat, d: nat, rules: Rules): (r: Out<Node>)
    ensures r.Good? ==> p < r.next <= |s|
    decreases |s| - p, 1
  {
    var q := SkipSpace(s, p, rules.limits.maxTotal);
    match ReadAt(s, q, rules.limits.maxTotal)
    case Byte(_) => ScanNode(s, q, d, rules)
    case r => Bad(ReadFailure(r))
  }

  /** The key of an entry and the colon after it; an array entry has none. The
      value is the whitespace before the key, and the key. */
  ghost function ScanKey(s: bytes, p: nat, isObject: bool, rules: Rules): (r: Out<(bytes, Key)>)
    ensures r.Good? ==> p <= r.next
  {
    if !isObject then Good(([], NoKey), p)
    else
      var total := rules.limits.maxTotal;
      var k := SkipSpace(s, p, total);
      if ReadAt(s, k, total) != Byte(QUOTE) then Bad(InvalidJson)
      else match ScanChars(s, k + 1, 0, rules.limits.maxKey, rules)
        case Bad(st) => Bad(st)
        case Good(c, r) =>
          var m := SkipSpace(s, r, total);
          if ReadAt(s, m, total) != Byte(COLON) then Bad(InvalidJson)
          else Good((s[p..k], Key(c, s[r..m])), m + 1)
  }

  /** What follows an opening bracket (`first`) or an entry. */
  ghost function ScanBody(s: bytes, p: nat, isObject: bool, first: bool, d: nat, rules: Rules): (r: Out<Body>)
    ensures r.Good? ==> p < r.next <= |s|
    decreases |s| - p, 3
  {
    var total := rules.limits.maxTotal;
    var q := SkipSpace(s, p, total);
    match ReadAt(s, q, total)
    case Byte(c) =>
      if c == Closer(isObject) then Good(End(s[p..q]), q + 1)
      else if !first && c != COMMA then Bad(InvalidJson)
      else if !HasRoom(rules, d) then Bad(Overflow)
      else ScanEntry(s, p, q, isObject, first, d, rules)
    case r => Bad(ReadFailure(r))
  }

  /** An entry and what follows it, `q` being where its comma or, for a first
      entry, its first byte is. */
  ghost function ScanEntry(s: bytes, p: nat, q: nat, isObject: bool, first: bool, d: nat, rules: Rules): (r: Out<Body>)
    requires p <= q < |s|
    ensures r.Good? ==> p < r.next <= |s|
    decreases |s| - q, 2
  {
    var start := if first then q else q + 1;
    match ScanKey(s, start, isObject, rules)
    case Bad(st) => Bad(st)
    case Good(k, x) =>
      match ScanValue(s, x, d + 1, rules)
      case Bad(st) => Bad(st)
      case Good(n, y) =>
        match ScanBody(s, y, isObject, false, d, rules)
        case Bad(st) => Bad(st)
        case Good(b, z) =>
          Good(Entry(s[p..q], k.0, k.1, s[x..SkipSpace(s, x, rules.limits.maxTotal)], n, b), z)
  }

  /** A whole text: one value with nothing but whitespace around it. */
  ghost function ScanDocument(s: bytes, rules: Rules): (r: Out<Document>) {
    var total := rules.limits.maxTotal;
    match ScanValue(s, 0, 0, rules)
    case Bad(st) => Bad(st)
    case Good(n, q) =>
      var e := SkipSpace(s, q, total);
      if ReadAt(s, e, total) != AtEnd then Bad(InvalidJson)
      else Good(Document(s[..SkipSpace(s, 0, total)], n, s[q..]), |s|)
  }
}
