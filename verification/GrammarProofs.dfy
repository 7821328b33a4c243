/** The scanner accepts exactly the texts of the grammar whose trees are within
    the limits, and returns their one tree. */
module GrammarProofs {
  import opened Bytes
  import opened Grammar
  import opened Scanner
  import opened StringProofs

  // ----- Numbers -----

  lemma NumberBytes(token: bytes)
    requires IsNumber(token)
    ensures token != [] && (token[0] == MINUS || IsDigit(token[0]))
    ensures forall i :: 0 <= i < |token| ==> IsNumberByte(token[i])
  {
    var n :| NumberWellFormed(n) && NumberText(n) == token;
    hide ExponentText, FractionText;
    ExponentBytes(n.exponent);
    FractionBytes(n.fraction);
  }

  ghost predicate NumberBytesOnly(w: bytes) {
    forall i :: 0 <= i < |w| ==> IsNumberByte(w[i])
  }

  lemma ExponentBytes(e: Exponent)
    requires e.Exponent? ==> (e.mark == 101 || e.mark == 69) && AllDigits(e.digits)
                             && (e.sign == [] || e.sign == [PLUS] || e.sign == [MINUS])
    ensures NumberBytesOnly(ExponentText(e))
  {
  }

  lemma FractionBytes(digits: bytes)
    requires AllDigits(digits)
    ensures NumberBytesOnly(FractionText(digits))
  {
  }

  ghost predicate StopsRun(s: bytes, q: nat) {
    q < |s| ==> !IsNumberByte(s[q])
  }

  lemma {:induction false} RunIs(s: bytes, p: nat, q: nat, n: nat, limits: Limits)
    requires p <= q <= |s| && StopsRun(s, q)
    requires forall i :: p <= i < q ==> IsNumberByte(s[i])
    requires p < q ==> Fits(limits.maxTotal, q) && !Exceeds(limits.maxNumber, n + (q - p))
    ensures ScanRun(s, p, n, limits) == Good((), q)
    decreases q - p
  {
    if p < q {
      RunIs(s, p + 1, q, n + 1, limits);
    }
  }

  lemma {:induction false} RunSound(s: bytes, p: nat, n: nat, limits: Limits)
    requires p <= |s| && Fits(limits.maxTotal, p) && !Exceeds(limits.maxNumber, n)
    requires ScanRun(s, p, n, limits).Good?
    ensures var q := ScanRun(s, p, n, limits).next;
            Fits(limits.maxTotal, q) && !Exceeds(limits.maxNumber, n + (q - p)) && StopsRun(s, q)
    decreases |s| - p
  {
    if p < |s| && IsNumberByte(s[p]) {
      RunSound(s, p + 1, n + 1, limits);
    }
  }

  // ----- Words -----

  lemma {:induction false} WordSound(s: bytes, p: nat, w: bytes, maxTotal: nat)
    requires p <= |s| && Fits(maxTotal, p) && ScanWord(s, p, w, maxTotal).Good?
    ensures At(s, p, w) && Fits(maxTotal, p + |w|)
    decreases |w|
  {
    if w != [] {
      WordSound(s, p + 1, w[1..], maxTotal);
      AtConcat(s, p, [w[0]], w[1..]);
      assert w == [w[0]] + w[1..];
      assert s[p..p + 1] == [w[0]];
    }
  }

  lemma {:induction false} WordComplete(s: bytes, p: nat, w: bytes, maxTotal: nat)
    requires At(s, p, w) && Fits(maxTotal, p + |w|)
    ensures ScanWord(s, p, w, maxTotal) == Good((), p + |w|)
    decreases |w|
  {
    if w != [] {
      AtConcat(s, p, [w[0]], w[1..]);
      assert w == [w[0]] + w[1..];
      AtIndex(s, p, w, 0);
      WordComplete(s, p + 1, w[1..], maxTotal);
    }
  }

  // ----- What acceptance means -----

  ghost predicate CharsWithin(c: Chars, limit: nat, rules: Rules) {
    rules.paired ==> Paired(c) && !Exceeds(limit, |Decode(c)|)
  }

  /** The tree keeps the limits, inside `d` containers. */
  ghost predicate NodeWithin(n: Node, d: nat, rules: Rules)
    decreases n
  {
    match n
    case Literal(_) => true
    case Num(token) => !Exceeds(rules.limits.maxNumber, |token|)
    case Str(c) => CharsWithin(c, rules.limits.maxString, rules)
    case Box(_, body) =>
      (rules.limits.maxDepth == 0 || d < rules.limits.maxDepth) && BodyWithin(body, d, rules)
  }

  ghost predicate BodyWithin(b: Body, d: nat, rules: Rules)
    decreases b
  {
    b.Entry? ==>
      && HasRoom(rules, d)
      && (b.key.Key? ==> CharsWithin(b.key.chars, rules.limits.maxKey, rules))
      && NodeWithin(b.value, d + 1, rules)
      && BodyWithin(b.rest, d, rules)
  }

  ghost predicate NodeAccepted(s: bytes, p: nat, d: nat, rules: Rules, n: Node, q: nat) {
    && NodeWellFormed(n) && At(s, p, NodeText(n)) && q == p + |NodeText(n)|
    && Fits(rules.limits.maxTotal, q) && NodeWithin(n, d, rules)
    && (n.Num? ==> StopsRun(s, q))
  }

  ghost predicate BodyAccepted(s: bytes, p: nat, isObject: bool, first: bool, d: nat, rules: Rules, b: Body, q: nat) {
    && BodyWellFormed(isObject, b, first) && At(s, p, BodyText(isObject, b, first))
    && q == p + |BodyText(isObject, b, first)|
    && Fits(rules.limits.maxTotal, q) && BodyWithin(b, d, rules)
  }

  /** Whitespace, a comma unless first, and a key, from `p` to `x`, the comma or
      first byte being at `q`. */
  ghost predicate HeadAccepted(s: bytes, p: nat, q: nat, isObject: bool, first: bool, rules: Rules,
                               before: bytes, lead: bytes, key: Key, x: nat) {
    && AllSpace(before) && At(s, p, before) && q == p + |before|
    && At(s, q, CommaText(first))
    && KeyAccepted(s, q + |CommaText(first)|, isObject, rules, lead, key, x)
    && (first && isObject ==> lead == [])
  }

  ghost predicate KeyAccepted(s: bytes, p: nat, isObject: bool, rules: Rules, lead: bytes, key: Key, x: nat) {
    && AllSpace(lead) && At(s, p, lead) && At(s, p + |lead|, KeyText(key))
    && x == p + |lead| + |KeyText(key)|
    && KeyWellFormed(isObject, key) && (!isObject ==> lead == [])
    && (isObject ==> Fits(rules.limits.maxTotal, x) && CharsWithin(key.chars, rules.limits.maxKey, rules))
  }

  // ----- Keys -----

  lemma ByteAt(s: bytes, p: nat, b: byte)
    ensures At(s, p, [b]) <==> p < |s| && s[p] == b
  {
    if p < |s| {
      assert s[p..p + 1] == [s[p]];
    }
  }

  lemma StringAt(s: bytes, p: nat, c: Chars)
    ensures At(s, p, StringText(c)) <==> p < |s| && s[p] == QUOTE && At(s, p + 1, CharsText(c))
  {
    hide CharsText;
    AtConcat(s, p, [QUOTE], CharsText(c));
    ByteAt(s, p, QUOTE);
  }

  lemma KeyAt(s: bytes, p: nat, c: Chars, gap: bytes)
    ensures At(s, p, KeyText(Key(c, gap))) <==>
            var m := p + |StringText(c)| + |gap|;
            && At(s, p, StringText(c)) && At(s, p + |StringText(c)|, gap)
            && m < |s| && s[m] == COLON
    ensures |KeyText(Key(c, gap))| == |StringText(c)| + |gap| + 1
  {
    hide StringText;
    AtConcat(s, p, StringText(c) + gap, [COLON]);
    AtConcat(s, p, StringText(c), gap);
    ByteAt(s, p + |StringText(c)| + |gap|, COLON);
  }

  /** The string opened at `p` ends at `q` with content `c`. */
  ghost predicate StringAccepted(s: bytes, p: nat, limit: nat, rules: Rules, c: Chars, q: nat) {
    && CharsWellFormed(c) && At(s, p, StringText(c)) && q == p + |StringText(c)|
    && Fits(rules.limits.maxTotal, q) && CharsWithin(c, limit, rules)
  }

  lemma StringSound(s: bytes, p: nat, limit: nat, rules: Rules)
    requires ReadAt(s, p, rules.limits.maxTotal) == Byte(QUOTE)
    requires ScanChars(s, p + 1, 0, limit, rules).Good?
    ensures var r := ScanChars(s, p + 1, 0, limit, rules);
            StringAccepted(s, p, limit, rules, r.value, r.next)
  {
    var c, q := ScanChars(s, p + 1, 0, limit, rules).value, ScanChars(s, p + 1, 0, limit, rules).next;
    CharsSound(s, p + 1, 0, limit, rules, c, q);
    hide ScanChars, CharsText, Paired;
    StringAt(s, p, c);
    assert c == Done ==> Decode(c) == [];
  }

  lemma StringComplete(s: bytes, p: nat, limit: nat, rules: Rules, c: Chars, q: nat)
    requires StringAccepted(s, p, limit, rules, c, q)
    requires rules.paired || limit == 0
    ensures ReadAt(s, p, rules.limits.maxTotal) == Byte(QUOTE)
    ensures ScanChars(s, p + 1, 0, limit, rules) == Good(c, q)
  {
    StringAt(s, p, c);
    hide ScanChars, Decode, Paired, CharsText;
    CharsComplete(s, p + 1, 0, limit, rules, c, q);
  }

  /** A key in its pieces: whitespace to `k`, the string to `r`, whitespace to
      the colon at `m`. */
  ghost predicate KeyPieces(s: bytes, p: nat, rules: Rules, lead: bytes, key: Key, k: nat, r: nat, m: nat) {
    && key.Key? && AllSpace(lead) && At(s, p, lead) && k == p + |lead|
    && StringAccepted(s, k, rules.limits.maxKey, rules, key.chars, r)
    && AllSpace(key.colonGap) && At(s, r, key.colonGap) && m == r + |key.colonGap|
    && m < |s| && s[m] == COLON && Fits(rules.limits.maxTotal, m + 1)
  }

  lemma KeyPiecesAccepted(s: bytes, p: nat, rules: Rules, lead: bytes, key: Key, k: nat, r: nat, m: nat)
    requires KeyPieces(s, p, rules, lead, key, k, r, m)
    ensures KeyAccepted(s, p, true, rules, lead, key, m + 1)
  {
    hide StringText, CharsWithin, KeyText, At;
    KeyAt(s, k, key.chars, key.colonGap);
  }

  lemma KeyAcceptedPieces(s: bytes, p: nat, rules: Rules, lead: bytes, key: Key, x: nat)
    returns (k: nat, r: nat, m: nat)
    requires KeyAccepted(s, p, true, rules, lead, key, x)
    ensures KeyPieces(s, p, rules, lead, key, k, r, m) && x == m + 1
  {
    hide StringText, CharsWithin, KeyText, At;
    k := p + |lead|;
    KeyAt(s, k, key.chars, key.colonGap);
    r := k + |StringText(key.chars)|;
    m := r + |key.colonGap|;
  }

  lemma KeySound(s: bytes, p: nat, rules: Rules)
    requires p <= |s| && ScanKey(s, p, true, rules).Good?
    ensures var r := ScanKey(s, p, true, rules);
            KeyAccepted(s, p, true, rules, r.value.0, r.value.1, r.next)
  {
    hide ScanChars, SkipSpace, StringAccepted, KeyAccepted;
    var total := rules.limits.maxTotal;
    var k := SkipSpace(s, p, total);
    SkippedIsSpace(s, p, total);
    StringSound(s, k, rules.limits.maxKey, rules);
    var r := ScanChars(s, k + 1, 0, rules.limits.maxKey, rules);
    var m := SkipSpace(s, r.next, total);
    SkippedIsSpace(s, r.next, total);
    KeyPiecesAccepted(s, p, rules, s[p..k], Key(r.value, s[r.next..m]), k, r.next, m);
  }

  lemma KeyComplete(s: bytes, p: nat, rules: Rules, lead: bytes, key: Key, x: nat)
    requires RulesOk(rules) && KeyAccepted(s, p, true, rules, lead, key, x)
    ensures ScanKey(s, p, true, rules) == Good((lead, key), x)
  {
    hide ScanChars, SkipSpace, StringAccepted, KeyAccepted;
    var k, r, m := KeyAcceptedPieces(s, p, rules, lead, key, x);
    StringComplete(s, k, rules.limits.maxKey, rules, key.chars, r);
    SkipSpaceIs(s, p, lead, rules.limits.maxTotal);
    SkipSpaceIs(s, r, key.colonGap, rules.limits.maxTotal);
    assert s[p..k] == lead && s[r..m] == key.colonGap;
  }

  // ----- Entries -----

  ghost predicate EntryPieces(s: bytes, p: nat, isObject: bool, first: bool, e: Body)
    requires e.Entry?
  {
    var q := p + |e.before|;
    var k := q + |CommaText(first)|;
    var x := k + |e.lead| + |KeyText(e.key)|;
    var v := x + |e.gap|;
    && At(s, p, e.before) && At(s, q, CommaText(first))
    && At(s, k, e.lead) && At(s, k + |e.lead|, KeyText(e.key))
    && At(s, x, e.gap) && At(s, v, NodeText(e.value))
    && At(s, v + |NodeText(e.value)|, BodyText(isObject, e.rest, false))
  }

  lemma SevenAt(s: bytes, p: nat, a: bytes, b: bytes, c: bytes, d: bytes, e: bytes, f: bytes, g: bytes)
    ensures At(s, p, a + (b + (c + (d + (e + (f + g)))))) <==>
            var q := p + |a|;
            var k := q + |b|;
            var x := k + |c| + |d|;
            var v := x + |e|;
            && At(s, p, a) && At(s, q, b) && At(s, k, c) && At(s, k + |c|, d) && At(s, x, e) && At(s, v, f)
            && At(s, v + |f|, g)
  {
    hide At;
    var q := p + |a|;
    var k := q + |b|;
    var x := k + |c| + |d|;
    AtConcat(s, p, a, b + (c + (d + (e + (f + g)))));
    AtConcat(s, q, b, c + (d + (e + (f + g))));
    AtConcat(s, k, c, d + (e + (f + g)));
    AtConcat(s, k + |c|, d, e + (f + g));
    AtConcat(s, x, e, f + g);
    AtConcat(s, x + |e|, f, g);
  }

  lemma EntryAt(s: bytes, p: nat, isObject: bool, first: bool, e: Body)
    requires e.Entry?
    ensures At(s, p, BodyText(isObject, e, first)) <==> EntryPieces(s, p, isObject, first, e)
    ensures |BodyText(isObject, e, first)| ==
            |e.before| + |CommaText(first)| + |e.lead| + |KeyText(e.key)| + |e.gap| + |NodeText(e.value)|
            + |BodyText(isObject, e.rest, false)|
  {
    hide NodeText, KeyText, CommaText, At;
    var comma, key, value, rest := CommaText(first), KeyText(e.key), NodeText(e.value), BodyText(isObject, e.rest, false);
    assert BodyText(isObject, e, first) == e.before + (comma + (e.lead + (key + (e.gap + (value + rest)))));
    hide BodyText;
    SevenAt(s, p, e.before, comma, e.lead, key, e.gap, value, rest);
  }

  lemma EntrySound(s: bytes, p: nat, q: nat, isObject: bool, first: bool, d: nat, rules: Rules,
                   e: Body, x: nat, y: nat, z: nat)
    requires e.Entry?
    requires HasRoom(rules, d) && HeadAccepted(s, p, q, isObject, first, rules, e.before, e.lead, e.key, x)
    requires AllSpace(e.gap) && At(s, x, e.gap) && (first && !isObject ==> e.gap == [])
    requires NodeAccepted(s, x + |e.gap|, d + 1, rules, e.value, y)
    requires BodyAccepted(s, y, isObject, false, d, rules, e.rest, z)
    ensures BodyAccepted(s, p, isObject, first, d, rules, e, z)
  {
    hide NodeText, KeyText, CharsWithin, At;
    EntryAt(s, p, isObject, first, e);
  }

  lemma EndAt(s: bytes, p: nat, isObject: bool, first: bool, before: bytes)
    ensures At(s, p, BodyText(isObject, End(before), first)) <==>
            At(s, p, before) && p + |before| < |s| && s[p + |before|] == Closer(isObject)
    ensures |BodyText(isObject, End(before), first)| == |before| + 1
  {
    AtConcat(s, p, before, [Closer(isObject)]);
    ByteAt(s, p + |before|, Closer(isObject));
  }

  // ----- Soundness -----

  lemma WordNodeSound(s: bytes, p: nat, d: nat, w: Word, rules: Rules)
    requires p < |s| && Fits(rules.limits.maxTotal, p + 1) && s[p] == WordText(w)[0]
    requires ScanLiteral(s, p, w, rules.limits.maxTotal).Good?
    ensures NodeAccepted(s, p, d, rules, Literal(w), ScanLiteral(s, p, w, rules.limits.maxTotal).next)
  {
    var t := WordText(w);
    WordSound(s, p + 1, t[1..], rules.limits.maxTotal);
    assert t == [t[0]] + t[1..];
    AtConcat(s, p, [t[0]], t[1..]);
    ByteAt(s, p, t[0]);
  }

  lemma NumberSound(s: bytes, p: nat, d: nat, rules: Rules)
    requires p < |s| && Fits(rules.limits.maxTotal, p + 1)
    requires ScanNumber(s, p, rules.limits).Good?
    ensures var r := ScanNumber(s, p, rules.limits);
            NodeAccepted(s, p, d, rules, r.value, r.next)
  {
    hide IsNumber, ScanRun;
    RunSound(s, p + 1, 1, rules.limits);
  }

  lemma BoxSound(s: bytes, p: nat, isObject: bool, d: nat, rules: Rules, b: Body, q: nat)
    requires p < |s| && s[p] == Opener(isObject) && BodyAccepted(s, p + 1, isObject, true, d, rules, b, q)
    requires rules.limits.maxDepth == 0 || d < rules.limits.maxDepth
    ensures NodeAccepted(s, p, d, rules, Box(isObject, b), q)
  {
    hide BodyText, BodyWellFormed, BodyWithin;
    AtConcat(s, p, [Opener(isObject)], BodyText(isObject, b, true));
    ByteAt(s, p, Opener(isObject));
  }

  lemma StringNodeSound(s: bytes, p: nat, d: nat, rules: Rules)
    requires ReadAt(s, p, rules.limits.maxTotal) == Byte(QUOTE) && ScanString(s, p + 1, rules).Good?
    ensures var r := ScanString(s, p + 1, rules); NodeAccepted(s, p, d, rules, r.value, r.next)
  {
    hide ScanChars, StringText, CharsWithin, CharsWellFormed;
    StringSound(s, p, rules.limits.maxString, rules);
  }

  lemma {:induction false} NodeSound(s: bytes, p: nat, d: nat, rules: Rules)
    requires p < |s| && Fits(rules.limits.maxTotal, p + 1) && ScanNode(s, p, d, rules).Good?
    ensures var r := ScanNode(s, p, d, rules);
            NodeAccepted(s, p, d, rules, r.value, r.next)
    decreases |s| - p, 0
  {
    hide NodeAccepted, BodyAccepted, ScanBody, ScanString, ScanNumber;
    var c := s[p];
    if c == QUOTE {
      StringNodeSound(s, p, d, rules);
    } else if c == Opener(true) || c == Opener(false) {
      var isObject := c == Opener(true);
      BodySound(s, p + 1, isObject, true, d, rules);
      var b := ScanBody(s, p + 1, isObject, true, d, rules);
      BoxSound(s, p, isObject, d, rules, b.value, b.next);
    } else if c == 116 {
      WordNodeSound(s, p, d, True, rules);
    } else if c == 102 {
      WordNodeSound(s, p, d, False, rules);
    } else if c == 110 {
      WordNodeSound(s, p, d, Null, rules);
    } else {
      NumberSound(s, p, d, rules);
    }
  }

  lemma {:induction false} ValueSound(s: bytes, p: nat, d: nat, rules: Rules)
    requires p <= |s| && ScanValue(s, p, d, rules).Good?
    ensures var r := ScanValue(s, p, d, rules);
            var q := SkipSpace(s, p, rules.limits.maxTotal);
            AllSpace(s[p..q]) && NodeAccepted(s, q, d, rules, r.value, r.next)
    decreases |s| - p, 1
  {
    hide ScanNode, NodeAccepted;
    SkippedIsSpace(s, p, rules.limits.maxTotal);
    NodeSound(s, SkipSpace(s, p, rules.limits.maxTotal), d, rules);
  }

  lemma {:induction false} BodySound(s: bytes, p: nat, isObject: bool, first: bool, d: nat, rules: Rules)
    requires p <= |s| && ScanBody(s, p, isObject, first, d, rules).Good?
    ensures var r := ScanBody(s, p, isObject, first, d, rules);
            BodyAccepted(s, p, isObject, first, d, rules, r.value, r.next)
    decreases |s| - p, 3
  {
    var total := rules.limits.maxTotal;
    var q := SkipSpace(s, p, total);
    SkippedIsSpace(s, p, total);
    if s[q] == Closer(isObject) {
      EndAt(s, p, isObject, first, s[p..q]);
    } else {
      EntryScanSound(s, p, q, isObject, first, d, rules);
    }
  }

  lemma FirstKeyLead(s: bytes, q: nat, rules: Rules)
    requires q < |s| && !IsSpace(s[q]) && ScanKey(s, q, true, rules).Good?
    ensures ScanKey(s, q, true, rules).value.0 == []
  {
    hide ScanChars;
    assert SkipSpace(s, q, rules.limits.maxTotal) == q;
  }

  lemma ArrayKey(s: bytes, p: nat, rules: Rules)
    requires p <= |s|
    ensures ScanKey(s, p, false, rules) == Good(([], NoKey), p)
    ensures KeyAccepted(s, p, false, rules, [], NoKey, p)
  {
  }

  lemma HeadSound(s: bytes, p: nat, q: nat, isObject: bool, first: bool, rules: Rules)
    requires p <= q < |s| && AllSpace(s[p..q]) && (if first then !IsSpace(s[q]) else s[q] == COMMA)
    requires ScanKey(s, if first then q else q + 1, isObject, rules).Good?
    ensures var k := ScanKey(s, if first then q else q + 1, isObject, rules);
            HeadAccepted(s, p, q, isObject, first, rules, s[p..q], k.value.0, k.value.1, k.next)
  {
    hide KeyAccepted, ScanKey, IsSpace;
    var start := if first then q else q + 1;
    ByteAt(s, q, COMMA);
    if isObject {
      KeySound(s, start, rules);
      if first {
        FirstKeyLead(s, q, rules);
      }
    } else {
      ArrayKey(s, start, rules);
    }
  }

  lemma {:induction false} EntryScanSound(s: bytes, p: nat, q: nat, isObject: bool, first: bool, d: nat, rules: Rules)
    requires p <= q < |s| && AllSpace(s[p..q]) && (if first then !IsSpace(s[q]) else s[q] == COMMA)
    requires HasRoom(rules, d) && ScanEntry(s, p, q, isObject, first, d, rules).Good?
    ensures var r := ScanEntry(s, p, q, isObject, first, d, rules);
            BodyAccepted(s, p, isObject, first, d, rules, r.value, r.next)
    decreases |s| - q, 2
  {
    hide NodeAccepted, BodyAccepted, HeadAccepted, ScanKey, ScanValue, ScanBody, SkipSpace;
    var start := if first then q else q + 1;
    var k := ScanKey(s, start, isObject, rules);
    HeadSound(s, p, q, isObject, first, rules);
    var v := ScanValue(s, k.next, d + 1, rules);
    ValueSound(s, k.next, d + 1, rules);
    var b := ScanBody(s, v.next, isObject, false, d, rules);
    BodySound(s, v.next, isObject, false, d, rules);
    var e := ScanEntry(s, p, q, isObject, first, d, rules).value;
    FirstArrayGap(s, q, isObject, first, rules);
    EntrySound(s, p, q, isObject, first, d, rules, e, k.next, v.next, b.next);
  }

  lemma FirstArrayGap(s: bytes, q: nat, isObject: bool, first: bool, rules: Rules)
    requires q < |s| && (first ==> !IsSpace(s[q]))
    ensures first && !isObject ==>
              ScanKey(s, q, isObject, rules) == Good(([], NoKey), q) && SkipSpace(s, q, rules.limits.maxTotal) == q
  {
  }

  // ----- Completeness -----

  /** A value starts with a byte that is neither space nor closing bracket. */
  lemma NodeHead(n: Node)
    requires NodeWellFormed(n)
    ensures NodeText(n) != []
    ensures var c := NodeText(n)[0]; !IsSpace(c) && c != Closer(true) && c != Closer(false)
  {
    if n.Num? {
      NumberBytes(n.token);
    }
  }

  /** What follows a value inside a container does not continue a number. */
  lemma BodyHead(isObject: bool, b: Body)
    requires BodyWellFormed(isObject, b, false)
    ensures BodyText(isObject, b, false) != [] && !IsNumberByte(BodyText(isObject, b, false)[0])
  {
    if b.before != [] {
      assert IsSpace(b.before[0]);
    }
  }

  lemma WordNodeComplete(s: bytes, p: nat, w: Word, maxTotal: nat)
    requires At(s, p, WordText(w)) && Fits(maxTotal, p + |WordText(w)|)
    ensures p < |s| && s[p] == WordText(w)[0]
    ensures ScanLiteral(s, p, w, maxTotal) == Good(Literal(w), p + |WordText(w)|)
  {
    var t := WordText(w);
    AtConcat(s, p, [t[0]], t[1..]);
    assert t == [t[0]] + t[1..];
    AtIndex(s, p, t, 0);
    WordComplete(s, p + 1, t[1..], maxTotal);
  }

  lemma NumberComplete(s: bytes, p: nat, token: bytes, rules: Rules)
    requires IsNumber(token) && At(s, p, token) && StopsRun(s, p + |token|)
    requires Fits(rules.limits.maxTotal, p + |token|) && !Exceeds(rules.limits.maxNumber, |token|)
    ensures p < |s| && (s[p] == MINUS || IsDigit(s[p]))
    ensures ScanNumber(s, p, rules.limits) == Good(Num(token), p + |token|)
  {
    hide IsNumber, ScanRun;
    NumberBytes(token);
    AtIndex(s, p, token, 0);
    forall i | p <= i < p + |token| ensures IsNumberByte(s[i]) {
      AtIndex(s, p, token, i - p);
    }
    RunIs(s, p + 1, p + |token|, 1, rules.limits);
  }

  lemma BoxComplete(s: bytes, p: nat, isObject: bool, d: nat, rules: Rules, b: Body, q: nat)
    requires NodeAccepted(s, p, d, rules, Box(isObject, b), q)
    ensures p < |s| && s[p] == Opener(isObject) && BodyAccepted(s, p + 1, isObject, true, d, rules, b, q)
    ensures rules.limits.maxDepth == 0 || d < rules.limits.maxDepth
  {
    hide BodyText, BodyWellFormed, BodyWithin;
    AtConcat(s, p, [Opener(isObject)], BodyText(isObject, b, true));
    ByteAt(s, p, Opener(isObject));
  }

  lemma StringNodeComplete(s: bytes, p: nat, d: nat, rules: Rules, c: Chars, q: nat)
    requires RulesOk(rules) && NodeAccepted(s, p, d, rules, Str(c), q)
    ensures p < |s| && s[p] == QUOTE && ScanString(s, p + 1, rules) == Good(Str(c), q)
  {
    hide ScanChars, StringText, CharsWithin, CharsWellFormed;
    StringComplete(s, p, rules.limits.maxString, rules, c, q);
  }

  lemma LiteralNodeComplete(s: bytes, p: nat, d: nat, rules: Rules, w: Word, q: nat)
    requires NodeAccepted(s, p, d, rules, Literal(w), q)
    ensures p < |s| && ScanNode(s, p, d, rules) == Good(Literal(w), q)
  {
    WordNodeComplete(s, p, w, rules.limits.maxTotal);
    hide ScanLiteral;
  }

  lemma NumberNodeComplete(s: bytes, p: nat, d: nat, rules: Rules, token: bytes, q: nat)
    requires NodeAccepted(s, p, d, rules, Num(token), q)
    ensures p < |s| && ScanNode(s, p, d, rules) == Good(Num(token), q)
  {
    hide ScanNumber, IsNumber, ScanRun;
    NumberComplete(s, p, token, rules);
  }

  lemma {:induction false} NodeComplete(s: bytes, p: nat, d: nat, rules: Rules, n: Node, q: nat)
    requires RulesOk(rules) && NodeAccepted(s, p, d, rules, n, q)
    ensures p < |s| && ScanNode(s, p, d, rules) == Good(n, q)
    decreases n, 0
  {
    hide NodeAccepted, BodyAccepted, ScanString, ScanBody, RulesOk;
    match n
    case Literal(w) => LiteralNodeComplete(s, p, d, rules, w, q);
    case Num(token) => NumberNodeComplete(s, p, d, rules, token, q);
    case Str(c) => StringNodeComplete(s, p, d, rules, c, q);
    case Box(isObject, b) =>
      BoxComplete(s, p, isObject, d, rules, b, q);
      BodyComplete(s, p + 1, isObject, true, d, rules, b, q);
  }

  lemma {:induction false} BodyComplete(s: bytes, p: nat, isObject: bool, first: bool, d: nat, rules: Rules, b: Body, q: nat)
    requires RulesOk(rules) && BodyAccepted(s, p, isObject, first, d, rules, b, q)
    ensures ScanBody(s, p, isObject, first, d, rules) == Good(b, q)
    decreases b, 1
  {
    if b.End? {
      EndAt(s, p, isObject, first, b.before);
      SkipSpaceIs(s, p, b.before, rules.limits.maxTotal);
    } else {
      EntryComplete(s, p, isObject, first, d, rules, b, q);
    }
  }

  lemma BodyFollows(s: bytes, y: nat, isObject: bool, d: nat, rules: Rules, b: Body, z: nat)
    requires BodyAccepted(s, y, isObject, false, d, rules, b, z)
    ensures y < |s| && StopsRun(s, y)
  {
    BodyHead(isObject, b);
    AtIndex(s, y, BodyText(isObject, b, false), 0);
  }

  lemma ValueHead(s: bytes, v: nat, d: nat, rules: Rules, n: Node, y: nat)
    requires NodeAccepted(s, v, d, rules, n, y)
    ensures v < |s| && v < y && Fits(rules.limits.maxTotal, v + 1)
    ensures !IsSpace(s[v]) && s[v] != Closer(true) && s[v] != Closer(false)
  {
    NodeHead(n);
    AtIndex(s, v, NodeText(n), 0);
  }

  /** The pieces of an accepted entry, each accepted where it stands. */
  lemma EntryParts(s: bytes, p: nat, isObject: bool, first: bool, d: nat, rules: Rules, e: Body, z: nat)
    returns (q: nat, x: nat, v: nat, y: nat)
    requires e.Entry? && BodyAccepted(s, p, isObject, first, d, rules, e, z)
    ensures HasRoom(rules, d)
    ensures HeadAccepted(s, p, q, isObject, first, rules, e.before, e.lead, e.key, x)
    ensures v == x + |e.gap| && At(s, x, e.gap) && AllSpace(e.gap) && (first && !isObject ==> e.gap == [])
    ensures NodeAccepted(s, v, d + 1, rules, e.value, y)
    ensures BodyAccepted(s, y, isObject, false, d, rules, e.rest, z)
  {
    hide NodeText, KeyText, CharsWithin, At, CommaText;
    EntryAt(s, p, isObject, first, e);
    q := p + |e.before|;
    x := q + |CommaText(first)| + |e.lead| + |KeyText(e.key)|;
    v := x + |e.gap|;
    y := v + |NodeText(e.value)|;
    BodyFollows(s, y, isObject, d, rules, e.rest, z);
  }

  lemma HeadQuote(s: bytes, p: nat, rules: Rules, lead: bytes, key: Key, x: nat)
    requires KeyAccepted(s, p, true, rules, lead, key, x)
    ensures p + |lead| < x <= |s| && s[p + |lead|] == QUOTE
  {
    hide KeyAccepted;
    var k, r, m := KeyAcceptedPieces(s, p, rules, lead, key, x);
    hide StringText;
    StringAt(s, k, key.chars);
  }

  /** The byte after the whitespace before an entry. */
  lemma HeadByte(s: bytes, p: nat, q: nat, isObject: bool, first: bool, rules: Rules,
                 before: bytes, lead: bytes, key: Key, x: nat)
    requires HeadAccepted(s, p, q, isObject, first, rules, before, lead, key, x)
    requires first && !isObject ==> x < |s| && !IsSpace(s[x]) && s[x] != Closer(isObject)
    requires x <= |s| && Fits(rules.limits.maxTotal, x + 1)
    ensures q < |s| && Fits(rules.limits.maxTotal, q + 1) && !IsSpace(s[q]) && s[q] != Closer(isObject)
    ensures !first ==> s[q] == COMMA
  {
    hide KeyAccepted, At, AllSpace;
    KeyEnds(s, q + |CommaText(first)|, isObject, rules, lead, key, x);
    if !first {
      ByteAt(s, q, COMMA);
    } else if isObject {
      HeadQuote(s, q, rules, lead, key, x);
    }
  }

  lemma KeyEnds(s: bytes, p: nat, isObject: bool, rules: Rules, lead: bytes, key: Key, x: nat)
    requires KeyAccepted(s, p, isObject, rules, lead, key, x)
    ensures p <= x && (!isObject ==> p == x)
  {
  }

  lemma HeadKey(s: bytes, p: nat, q: nat, isObject: bool, first: bool, rules: Rules,
                before: bytes, lead: bytes, key: Key, x: nat)
    requires RulesOk(rules) && HeadAccepted(s, p, q, isObject, first, rules, before, lead, key, x) && x <= |s|
    ensures ScanKey(s, if first then q else q + 1, isObject, rules) == Good((lead, key), x)
  {
    hide ScanKey, RulesOk, At, AllSpace;
    var start := q + |CommaText(first)|;
    if isObject {
      hide KeyAccepted;
      KeyComplete(s, start, rules, lead, key, x);
    } else {
      ArrayKey(s, start, rules);
    }
  }

  lemma HeadSpace(s: bytes, p: nat, q: nat, isObject: bool, first: bool, rules: Rules,
                  before: bytes, lead: bytes, key: Key, x: nat)
    requires HeadAccepted(s, p, q, isObject, first, rules, before, lead, key, x)
    ensures AllSpace(before) && At(s, p, before) && p <= q <= |s| && q == p + |before| && s[p..q] == before
  {
    hide KeyAccepted, AllSpace, CommaText;
  }

  lemma ByteIsRead(s: bytes, q: nat, total: nat)
    requires q < |s| && Fits(total, q + 1)
    ensures ReadAt(s, q, total) == Byte(s[q])
  {
  }

  /** Where the head of an entry starts, and what the scanner makes of it. */
  lemma HeadComplete(s: bytes, p: nat, q: nat, isObject: bool, first: bool, rules: Rules,
                     before: bytes, lead: bytes, key: Key, x: nat)
    requires RulesOk(rules) && HeadAccepted(s, p, q, isObject, first, rules, before, lead, key, x)
    requires first && !isObject ==> x < |s| && !IsSpace(s[x]) && s[x] != Closer(isObject)
    requires x <= |s| && Fits(rules.limits.maxTotal, x + 1)
    ensures p <= q < |s| && s[p..q] == before && SkipSpace(s, p, rules.limits.maxTotal) == q
    ensures ReadAt(s, q, rules.limits.maxTotal) == Byte(s[q])
    ensures s[q] != Closer(isObject) && (!first ==> s[q] == COMMA)
    ensures ScanKey(s, if first then q else q + 1, isObject, rules) == Good((lead, key), x)
  {
    hide ScanKey, RulesOk, IsSpace, SkipSpace, HeadAccepted, KeyAccepted, CommaText, AllSpace, At, ReadAt;
    HeadByte(s, p, q, isObject, first, rules, before, lead, key, x);
    HeadKey(s, p, q, isObject, first, rules, before, lead, key, x);
    HeadSpace(s, p, q, isObject, first, rules, before, lead, key, x);
    ByteIsRead(s, q, rules.limits.maxTotal);
    SkipSpaceIs(s, p, before, rules.limits.maxTotal);
  }

  lemma ScanEntryIs(s: bytes, p: nat, q: nat, isObject: bool, first: bool, d: nat, rules: Rules,
                    e: Body, x: nat, v: nat, y: nat, z: nat)
    requires e.Entry? && HasRoom(rules, d) && p <= q < |s| && v < |s| && s[p..q] == e.before
    requires SkipSpace(s, p, rules.limits.maxTotal) == q && ReadAt(s, q, rules.limits.maxTotal) == Byte(s[q])
    requires s[q] != Closer(isObject) && (!first ==> s[q] == COMMA)
    requires ScanKey(s, if first then q else q + 1, isObject, rules) == Good((e.lead, e.key), x)
    requires SkipSpace(s, x, rules.limits.maxTotal) == v && x <= v && s[x..v] == e.gap
    requires ReadAt(s, v, rules.limits.maxTotal).Byte? && ScanNode(s, v, d + 1, rules) == Good(e.value, y)
    requires ScanBody(s, y, isObject, false, d, rules) == Good(e.rest, z)
    ensures ScanBody(s, p, isObject, first, d, rules) == Good(e, z)
  {
    hide SkipSpace, ScanKey, ScanNode;
    assert ScanValue(s, x, d + 1, rules) == Good(e.value, y);
    hide ScanValue;
    assert ScanEntry(s, p, q, isObject, first, d, rules) == Good(e, z);
  }

  lemma {:induction false} EntryComplete(s: bytes, p: nat, isObject: bool, first: bool, d: nat, rules: Rules, e: Body, z: nat)
    requires RulesOk(rules) && e.Entry? && BodyAccepted(s, p, isObject, first, d, rules, e, z)
    ensures ScanBody(s, p, isObject, first, d, rules) == Good(e, z)
    decreases e, 0
  {
    hide BodyAccepted, NodeAccepted, HeadAccepted, ScanKey, SkipSpace, ScanNode, ScanBody;
    var q, x, v, y := EntryParts(s, p, isObject, first, d, rules, e, z);
    ValueHead(s, v, d + 1, rules, e.value, y);
    HeadComplete(s, p, q, isObject, first, rules, e.before, e.lead, e.key, x);
    SkipSpaceIs(s, x, e.gap, rules.limits.maxTotal);
    NodeComplete(s, v, d + 1, rules, e.value, y);
    BodyComplete(s, y, isObject, false, d, rules, e.rest, z);
    ScanEntryIs(s, p, q, isObject, first, d, rules, e, x, v, y, z);
  }

  // ----- Whole texts -----

  ghost predicate DocumentAccepted(s: bytes, rules: Rules, doc: Document) {
    && DocumentWellFormed(doc) && DocumentText(doc) == s
    && Fits(rules.limits.maxTotal, |s|) && NodeWithin(doc.value, 0, rules)
  }

  lemma DocumentAt(s: bytes, doc: Document)
    ensures DocumentText(doc) == s <==>
            var v := |doc.lead|;
            var t := v + |NodeText(doc.value)|;
            At(s, 0, doc.lead) && At(s, v, NodeText(doc.value)) && At(s, t, doc.trail) && t + |doc.trail| == |s|
  {
    var n := NodeText(doc.value);
    hide NodeText;
    AtConcat(s, 0, doc.lead, n + doc.trail);
    AtConcat(s, |doc.lead|, n, doc.trail);
    if |DocumentText(doc)| == |s| {
      assert s[0..|s|] == s;
    }
  }

  lemma DocumentSound(s: bytes, rules: Rules)
    requires ScanDocument(s, rules).Good?
    ensures DocumentAccepted(s, rules, ScanDocument(s, rules).value)
  {
    hide SkipSpace, ScanValue, NodeText, NodeWithin, NodeWellFormed, DocumentText;
    var total := rules.limits.maxTotal;
    ValueSound(s, 0, 0, rules);
    var r := ScanValue(s, 0, 0, rules);
    SkippedIsSpace(s, r.next, total);
    assert s[r.next..SkipSpace(s, r.next, total)] == s[r.next..];
    assert s[0..SkipSpace(s, 0, total)] == s[..SkipSpace(s, 0, total)];
    DocumentAt(s, ScanDocument(s, rules).value);
  }

  lemma DocumentParts(s: bytes, rules: Rules, doc: Document) returns (v: nat, t: nat)
    requires DocumentAccepted(s, rules, doc)
    ensures v == |doc.lead| && At(s, 0, doc.lead) && AllSpace(doc.lead)
    ensures NodeAccepted(s, v, 0, rules, doc.value, t)
    ensures At(s, t, doc.trail) && t + |doc.trail| == |s| && AllSpace(doc.trail) && Fits(rules.limits.maxTotal, |s|)
  {
    hide NodeText, NodeWithin, NodeWellFormed;
    DocumentAt(s, doc);
    v, t := |doc.lead|, |doc.lead| + |NodeText(doc.value)|;
    if doc.trail != [] {
      AtIndex(s, t, doc.trail, 0);
    }
  }

  lemma DocumentComplete(s: bytes, rules: Rules, doc: Document)
    requires RulesOk(rules) && DocumentAccepted(s, rules, doc)
    ensures ScanDocument(s, rules) == Good(doc, |s|)
  {
    hide DocumentAccepted, NodeAccepted, ScanNode, RulesOk, SkipSpace;
    var total := rules.limits.maxTotal;
    var v, t := DocumentParts(s, rules, doc);
    ValueHead(s, v, 0, rules, doc.value, t);
    NodeComplete(s, v, 0, rules, doc.value, t);
    SkipSpaceIs(s, 0, doc.lead, total);
    SkipSpaceIs(s, t, doc.trail, total);
    assert s[..v] == s[0..v] == doc.lead;
    assert s[t..] == s[t..t + |doc.trail|] == doc.trail;
  }

  /** Acceptance is membership in the grammar within the limits. */
  lemma AcceptsExactlyTheGrammar(s: bytes, rules: Rules)
    requires RulesOk(rules)
    ensures ScanDocument(s, rules).Good? <==> exists doc :: DocumentAccepted(s, rules, doc)
  {
    hide DocumentAccepted, ScanDocument;
    if ScanDocument(s, rules).Good? {
      DocumentSound(s, rules);
    }
    forall doc | DocumentAccepted(s, rules, doc) ensures ScanDocument(s, rules).Good? {
      DocumentComplete(s, rules, doc);
    }
  }

  /** The grammar is unambiguous: a text has one tree. */
  lemma GrammarIsUnambiguous(a: Document, b: Document)
    requires DocumentWellFormed(a) && DocumentWellFormed(b) && DocumentText(a) == DocumentText(b)
    ensures a == b
  {
    UnlimitedWithin(a.value, 0);
    UnlimitedWithin(b.value, 0);
    DocumentComplete(DocumentText(a), UNLIMITED, a);
    DocumentComplete(DocumentText(b), UNLIMITED, b);
  }

  lemma {:induction false} UnlimitedWithin(n: Node, d: nat)
    ensures NodeWithin(n, d, UNLIMITED)
    decreases n
  {
    if n.Box? {
      UnlimitedBodyWithin(n.body, d);
    }
  }

  lemma {:induction false} UnlimitedBodyWithin(b: Body, d: nat)
    ensures BodyWithin(b, d, UNLIMITED)
    decreases b
  {
    if b.Entry? {
      UnlimitedWithin(b.value, d + 1);
      UnlimitedBodyWithin(b.rest, d);
    }
  }
}
