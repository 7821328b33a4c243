/** What the limits of a visit mean: measures of the tree, and which texts are
    refused as no JSON rather than as too large. */
module Measures {
  import opened Bytes
  import opened Grammar
  import opened Scanner
  import opened StringProofs
  import opened GrammarProofs
  import opened Trace
  import opened Visitors
  import opened Rewriting
  import opened Transcoders

  // ----- Measures of a tree -----

  function Max(a: nat, b: nat): nat {
    if a < b then b else a
  }

  /** How many containers are nested. */
  ghost function Nesting(n: Node): nat
    decreases n
  {
    if n.Box? then 1 + BodyNesting(n.body) else 0
  }

  ghost function BodyNesting(b: Body): nat
    decreases b
  {
    if b.Entry? then Max(Nesting(b.value), BodyNesting(b.rest)) else 0
  }

  /** What a limit is about. */
  datatype Part = NumberPart | StringPart | KeyPart

  /** The length of the longest number, decoded string or decoded key. */
  ghost function Longest(n: Node, part: Part): nat
    decreases n
  {
    match n
    case Literal(_) => 0
    case Num(token) => if part.NumberPart? then |token| else 0
    case Str(c) => if part.StringPart? then |Decode(c)| else 0
    case Box(_, body) => BodyLongest(body, part)
  }

  ghost function BodyLongest(b: Body, part: Part): nat
    decreases b
  {
    if b.End? then 0
    else
      var key := if part.KeyPart? && b.key.Key? then |Decode(b.key.chars)| else 0;
      Max(key, Max(Longest(b.value, part), BodyLongest(b.rest, part)))
  }

  /** Surrogate escapes come in pairs in every string and key. */
  ghost predicate AllPaired(n: Node)
    decreases n
  {
    match n
    case Str(c) => Paired(c)
    case Box(_, body) => BodyPaired(body)
    case _ => true
  }

  ghost predicate BodyPaired(b: Body)
    decreases b
  {
    b.Entry? ==> (b.key.Key? ==> Paired(b.key.chars)) && AllPaired(b.value) && BodyPaired(b.rest)
  }

  /** A limit of zero is no limit. */
  predicate Keeps(n: nat, limit: nat) {
    limit == 0 || n <= limit
  }

  ghost predicate Small(n: Node, d: nat, limits: Limits) {
    && (n.Box? ==> Keeps(d + Nesting(n), limits.maxDepth)) && Keeps(Longest(n, NumberPart), limits.maxNumber)
    && Keeps(Longest(n, StringPart), limits.maxString) && Keeps(Longest(n, KeyPart), limits.maxKey)
  }

  ghost predicate BodySmall(b: Body, d: nat, limits: Limits) {
    && Keeps(d + 1 + BodyNesting(b), limits.maxDepth) && Keeps(BodyLongest(b, NumberPart), limits.maxNumber)
    && Keeps(BodyLongest(b, StringPart), limits.maxString) && Keeps(BodyLongest(b, KeyPart), limits.maxKey)
  }

  /** A tree keeps the limits exactly when its measures do. */
  lemma {:induction false} WithinMeans(n: Node, d: nat, limits: Limits)
    ensures NodeWithin(n, d, Rules(limits, true, AnyLevel)) <==> AllPaired(n) && Small(n, d, limits)
    decreases n
  {
    hide BodyWithin, BodyPaired, BodyNesting, BodyLongest;
    if n.Box? && (limits.maxDepth == 0 || d < limits.maxDepth) {
      BodyWithinMeans(n.body, d, limits);
    }
  }

  lemma {:induction false} BodyWithinMeans(b: Body, d: nat, limits: Limits)
    requires limits.maxDepth == 0 || d < limits.maxDepth
    ensures BodyWithin(b, d, Rules(limits, true, AnyLevel)) <==> BodyPaired(b) && BodySmall(b, d, limits)
    decreases b
  {
    hide Paired, Decode, Nesting, Longest, NodeWithin, AllPaired;
    if b.Entry? {
      WithinMeans(b.value, d + 1, limits);
      if limits.maxDepth == 0 || d + 1 <= limits.maxDepth {
        BodyWithinMeans(b.rest, d, limits);
        FlatNesting(b.value);
      }
    }
  }

  lemma FlatNesting(n: Node)
    ensures !n.Box? ==> Nesting(n) == 0
  {
  }

  // ----- No JSON, or too large -----

  /** Without limits, and escapes paired as before. */
  ghost function Lifted(rules: Rules): Rules {
    Rules(Limits(0, 0, 0, 0, 0), rules.paired, AnyLevel)
  }

  /** A result that is no overflow does not depend on the limits. */
  ghost predicate Agrees<T>(r: Out<T>, lifted: Out<T>) {
    Fails(r, Overflow) || r == lifted
  }

  lemma SameRead(s: bytes, p: nat, total: nat)
    requires Keeps(|s|, total)
    ensures ReadAt(s, p, total) == ReadAt(s, p, 0)
  {
  }

  lemma {:induction false} SameSkip(s: bytes, p: nat, total: nat)
    requires Keeps(|s|, total)
    ensures SkipSpace(s, p, total) == SkipSpace(s, p, 0)
    decreases |s| - p
  {
    if p < |s| {
      SameSkip(s, p + 1, total);
    }
  }

  lemma {:induction false} SameHex(s: bytes, p: nat, n: nat, total: nat)
    requires Keeps(|s|, total)
    ensures ScanHex(s, p, n, total) == ScanHex(s, p, n, 0)
    decreases n
  {
    SameRead(s, p, total);
    if n != 0 {
      SameHex(s, p + 1, n - 1, total);
    }
  }

  lemma {:induction false} SameWord(s: bytes, p: nat, w: bytes, total: nat)
    requires Keeps(|s|, total)
    ensures ScanWord(s, p, w, total) == ScanWord(s, p, w, 0)
    decreases |w|
  {
    SameRead(s, p, total);
    if w != [] {
      SameWord(s, p + 1, w[1..], total);
    }
  }

  lemma SameUnit(s: bytes, p: nat, rules: Rules)
    requires Keeps(|s|, rules.limits.maxTotal)
    ensures ScanUnit(s, p, rules) == ScanUnit(s, p, Lifted(rules))
  {
    hide ReadAt, ScanEscape;
    SameRead(s, p, rules.limits.maxTotal);
    SameEscape(s, p + 1, rules);
  }

  lemma SameEscape(s: bytes, p: nat, rules: Rules)
    requires Keeps(|s|, rules.limits.maxTotal)
    ensures ScanEscape(s, p, rules) == ScanEscape(s, p, Lifted(rules))
  {
    hide ReadAt, ScanUnicode, IsShortEscape;
    SameRead(s, p, rules.limits.maxTotal);
    SameUnicode(s, p + 1, rules);
  }

  lemma SameUnicode(s: bytes, p: nat, rules: Rules)
    requires Keeps(|s|, rules.limits.maxTotal)
    ensures ScanUnicode(s, p, rules) == ScanUnicode(s, p, Lifted(rules))
  {
    hide ReadAt, ScanHex, IsHigh, IsLow;
    var total := rules.limits.maxTotal;
    SameHex(s, p, 4, total);
    SameRead(s, p + 4, total);
    SameRead(s, p + 5, total);
    SameHex(s, p + 6, 4, total);
  }

  lemma {:induction false} CharsAgree(s: bytes, p: nat, n: nat, limit: nat, rules: Rules)
    requires Keeps(|s|, rules.limits.maxTotal)
    ensures Agrees(ScanChars(s, p, n, limit, rules), ScanChars(s, p, n, 0, Lifted(rules)))
    decreases |s| - p
  {
    hide ReadAt, ScanUnit, UnitBytes;
    SameRead(s, p, rules.limits.maxTotal);
    SameUnit(s, p, rules);
    if ScanUnit(s, p, rules).Good? {
      CharsAgree(s, ScanUnit(s, p, rules).next, n + |UnitBytes(ScanUnit(s, p, rules).value)|, limit, rules);
    }
  }

  lemma {:induction false} RunAgrees(s: bytes, p: nat, n: nat, limits: Limits)
    ensures Agrees(ScanRun(s, p, n, limits), ScanRun(s, p, n, Limits(0, 0, 0, 0, 0)))
    decreases |s| - p
  {
    if p < |s| {
      RunAgrees(s, p + 1, n + 1, limits);
    }
  }

  lemma KeyAgrees(s: bytes, p: nat, isObject: bool, rules: Rules)
    requires Keeps(|s|, rules.limits.maxTotal)
    ensures Agrees(ScanKey(s, p, isObject, rules), ScanKey(s, p, isObject, Lifted(rules)))
  {
    hide ReadAt, ScanChars, SkipSpace;
    var total := rules.limits.maxTotal;
    var k := SkipSpace(s, p, total);
    SameSkip(s, p, total);
    SameRead(s, k, total);
    CharsAgree(s, k + 1, 0, rules.limits.maxKey, rules);
    var c := ScanChars(s, k + 1, 0, rules.limits.maxKey, rules);
    if c.Good? {
      SameSkip(s, c.next, total);
      SameRead(s, SkipSpace(s, c.next, total), total);
    }
  }

  lemma TextAgrees(s: bytes, p: nat, rules: Rules)
    requires p < |s| && Keeps(|s|, rules.limits.maxTotal)
    ensures Agrees(ScanString(s, p + 1, rules), ScanString(s, p + 1, Lifted(rules)))
    ensures Agrees(ScanNumber(s, p, rules.limits), ScanNumber(s, p, Lifted(rules).limits))
  {
    hide ScanChars, ScanRun, IsNumber;
    CharsAgree(s, p + 1, 0, rules.limits.maxString, rules);
    RunAgrees(s, p + 1, 1, rules.limits);
  }

  lemma LiteralAgrees(s: bytes, p: nat, w: Word, rules: Rules)
    requires Keeps(|s|, rules.limits.maxTotal)
    ensures ScanLiteral(s, p, w, rules.limits.maxTotal) == ScanLiteral(s, p, w, 0)
  {
    hide ScanWord;
    SameWord(s, p + 1, WordText(w)[1..], rules.limits.maxTotal);
  }

  lemma {:induction false} NodeAgrees(s: bytes, p: nat, d: nat, rules: Rules)
    requires p < |s| && Keeps(|s|, rules.limits.maxTotal)
    ensures Agrees(ScanNode(s, p, d, rules), ScanNode(s, p, d, Lifted(rules)))
    decreases |s| - p, 0
  {
    hide ScanString, ScanBody, ScanNumber, ScanLiteral;
    TextAgrees(s, p, rules);
    LiteralAgrees(s, p, True, rules);
    LiteralAgrees(s, p, False, rules);
    LiteralAgrees(s, p, Null, rules);
    BodyAgrees(s, p + 1, s[p] == Opener(true), true, d, rules);
  }

  lemma {:induction false} ValueAgrees(s: bytes, p: nat, d: nat, rules: Rules)
    requires Keeps(|s|, rules.limits.maxTotal)
    ensures Agrees(ScanValue(s, p, d, rules), ScanValue(s, p, d, Lifted(rules)))
    decreases |s| - p, 1
  {
    hide ScanNode, SkipSpace;
    var q := SkipSpace(s, p, rules.limits.maxTotal);
    SameSkip(s, p, rules.limits.maxTotal);
    SameRead(s, q, rules.limits.maxTotal);
    if q < |s| {
      NodeAgrees(s, q, d, rules);
    }
  }

  lemma {:induction false} BodyAgrees(s: bytes, p: nat, isObject: bool, first: bool, d: nat, rules: Rules)
    requires Keeps(|s|, rules.limits.maxTotal)
    ensures Agrees(ScanBody(s, p, isObject, first, d, rules), ScanBody(s, p, isObject, first, d, Lifted(rules)))
    decreases |s| - p, 3
  {
    hide ScanEntry, SkipSpace;
    var q := SkipSpace(s, p, rules.limits.maxTotal);
    SameSkip(s, p, rules.limits.maxTotal);
    SameRead(s, q, rules.limits.maxTotal);
    if q < |s| {
      EntryAgrees(s, p, q, isObject, first, d, rules);
    }
  }

  lemma {:induction false} EntryAgrees(s: bytes, p: nat, q: nat, isObject: bool, first: bool, d: nat, rules: Rules)
    requires p <= q < |s| && Keeps(|s|, rules.limits.maxTotal)
    ensures Agrees(ScanEntry(s, p, q, isObject, first, d, rules), ScanEntry(s, p, q, isObject, first, d, Lifted(rules)))
    decreases |s| - q, 2
  {
    hide ScanKey, ScanValue, ScanBody, SkipSpace;
    var start := if first then q else q + 1;
    KeyAgrees(s, start, isObject, rules);
    var k := ScanKey(s, start, isObject, rules);
    if k.Good? {
      SameSkip(s, k.next, rules.limits.maxTotal);
      ValueAgrees(s, k.next, d + 1, rules);
      var n := ScanValue(s, k.next, d + 1, rules);
      if n.Good? {
        BodyAgrees(s, n.next, isObject, false, d, rules);
      }
    }
  }

  lemma DocumentAgrees(s: bytes, rules: Rules)
    requires Keeps(|s|, rules.limits.maxTotal)
    ensures Agrees(ScanDocument(s, rules), ScanDocument(s, Lifted(rules)))
  {
    hide ScanValue, SkipSpace;
    var total := rules.limits.maxTotal;
    ValueAgrees(s, 0, 0, rules);
    SameSkip(s, 0, total);
    var v := ScanValue(s, 0, 0, rules);
    if v.Good? {
      SameSkip(s, v.next, total);
      SameRead(s, SkipSpace(s, v.next, total), total);
    }
  }

  // ----- What a visit answers, by the text and the limits given -----

  /** The tree of a text whose escapes are paired, whatever its size. */
  ghost predicate Tree(text: bytes, doc: Document) {
    DocumentWellFormed(doc) && DocumentText(doc) == text && AllPaired(doc.value)
  }

  function Default(limit: nat, absent: nat): nat {
    if limit == 0 then absent else limit
  }

  /** A text and its tree within the limits, where 64 levels, a mebibyte of string,
      256 bytes of number and 64 kibibytes of key stand for limits that are absent. */
  ghost predicate Modest(text: bytes, n: Node, given: Limits) {
    && Nesting(n) <= Default(given.maxDepth, 64)
    && Longest(n, StringPart) <= Default(given.maxString, 1048576)
    && Longest(n, NumberPart) <= Default(given.maxNumber, 256)
    && Longest(n, KeyPart) <= Default(given.maxKey, 65536)
    && (given.maxTotal == 0 || |text| <= given.maxTotal)
  }

  lemma AcceptedMeans(text: bytes, given: Limits, doc: Document)
    ensures DocumentAccepted(text, Rules(EffectiveLimits(given), true, AnyLevel), doc) <==>
            Tree(text, doc) && Modest(text, doc.value, given)
  {
    hide DocumentWellFormed, DocumentText, AllPaired, NodeWithin, Longest;
    WithinMeans(doc.value, 0, EffectiveLimits(given));
    FlatNesting(doc.value);
  }

  lemma LiftedMeans(text: bytes, rules: Rules, doc: Document)
    requires rules.paired
    ensures DocumentAccepted(text, Lifted(rules), doc) <==> Tree(text, doc)
  {
    hide DocumentWellFormed, DocumentText, AllPaired, NodeWithin;
    WithinMeans(doc.value, 0, Limits(0, 0, 0, 0, 0));
  }

  /** A visit accepts exactly the texts of trees within the limits. A text that does
      not pass the total limit is refused as no JSON only if it is none, so one that
      is JSON and passes another limit is refused as too large. */
  lemma VisitAnswers(text: bytes, given: Limits, status: Status, events: seq<Event>)
    requires Answered(text, Rules(EffectiveLimits(given), true, AnyLevel), status, events)
    ensures status == Ok <==> exists doc :: Tree(text, doc) && Modest(text, doc.value, given)
    ensures status == Ok || status == InvalidJson || status == Overflow
    ensures status == InvalidJson && (given.maxTotal == 0 || |text| <= given.maxTotal) ==> !exists doc :: Tree(text, doc)
  {
    hide DocumentAccepted, Tree, Modest, ScanDocument, Flat, Walk, EffectiveLimits;
    var rules := Rules(EffectiveLimits(given), true, AnyLevel);
    forall doc | DocumentAccepted(text, rules, doc) ensures Tree(text, doc) && Modest(text, doc.value, given) {
      AcceptedMeans(text, given, doc);
    }
    forall doc | Tree(text, doc) && Modest(text, doc.value, given) ensures DocumentAccepted(text, rules, doc) {
      AcceptedMeans(text, given, doc);
    }
    if status == InvalidJson && (given.maxTotal == 0 || |text| <= given.maxTotal) {
      assert rules.limits.maxTotal == given.maxTotal;
      DocumentAgrees(text, rules);
      AcceptsExactlyTheGrammar(text, Lifted(rules));
      forall doc | Tree(text, doc) ensures DocumentAccepted(text, Lifted(rules), doc) {
        LiftedMeans(text, rules, doc);
      }
    }
  }

  /** The transcoder refuses as no JSON only what is none, surrogates paired or not: a
      text it has no room for is too large. */
  lemma RefusedIsNoJson(text: bytes, pretty: bool, base: nat, status: Status, out: bytes)
    requires Transcoded(text, pretty, base, status, out)
    ensures status == Ok || status == InvalidJson || status == Overflow
    ensures status == InvalidJson ==> !exists doc :: DocumentWellFormed(doc) && DocumentText(doc) == text
  {
    hide DocumentWellFormed, DocumentText, NodeWithin, ScanDocument, OutputText;
    var rules := TranscodeRules(pretty, base);
    if status == InvalidJson {
      DocumentAgrees(text, rules);
      assert Lifted(rules) == UNLIMITED;
      AcceptsExactlyTheGrammar(text, UNLIMITED);
      forall doc | DocumentWellFormed(doc) && DocumentText(doc) == text ensures DocumentAccepted(text, UNLIMITED, doc) {
        UnlimitedWithin(doc.value, 0);
      }
    }
  }
}
