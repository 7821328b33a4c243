/** Rewriting a text: the same tree with new whitespace. The transcoder is
    proved to write exactly this; here it is shown to preserve meaning. */
module Rewriting {
  import opened Bytes
  import opened Grammar
  import opened Scanner
  import opened StringProofs
  import opened GrammarProofs
  import opened Trace

  const NEWLINE: byte := 10
  const SPACE: byte := 32

  ghost function Spaces(n: nat): (r: bytes)
    ensures |r| == n && AllSpace(r)
  {
    seq(n, _ => SPACE)
  }

  /** One newline and exactly two spaces per level. */
  ghost function Break(depth: nat): (r: bytes)
    ensures |r| == 1 + 2 * depth && AllSpace(r)
  {
    [NEWLINE] + Spaces(2 * depth)
  }

  ghost function Indent(pretty: bool, depth: nat): (r: bytes)
    ensures AllSpace(r)
  {
    if pretty then Break(depth) else []
  }

  /** The tree with the whitespace of the compact or the pretty form, `depth`
      levels down. */
  ghost function Relayout(n: Node, pretty: bool, depth: nat): (r: Node)
    ensures r.Box? <==> n.Box?
    decreases n
  {
    match n
    case Box(isObject, body) => Box(isObject, RelayoutBody(body, isObject, true, pretty, depth))
    case _ => n
  }

  ghost function RelayoutKey(k: Key): Key {
    match k
    case NoKey => NoKey
    case Key(c, _) => Key(c, [])
  }

  ghost function KeyGap(pretty: bool): (r: bytes)
    ensures AllSpace(r)
  {
    if pretty then [SPACE] else []
  }

  ghost function RelayoutBody(b: Body, isObject: bool, first: bool, pretty: bool, depth: nat): (r: Body)
    decreases b
  {
    match b
    case End(_) => End(if first then [] else Indent(pretty, depth))
    case Entry(_, _, key, _, value, rest) =>
      var indent := Indent(pretty, depth + 1);
      Entry(if first then indent else [],
            if isObject && !first then indent else [],
            RelayoutKey(key),
            if isObject then KeyGap(pretty) else if first then [] else indent,
            Relayout(value, pretty, depth + 1),
            RelayoutBody(rest, isObject, false, pretty, depth))
  }

  /** Every level that holds an entry can be indented: the number of spaces of
      each break is a size. */
  ghost predicate NodeFits(n: Node, depth: nat)
    decreases n
  {
    n.Box? ==> BodyFits(n.body, depth)
  }

  ghost predicate BodyFits(b: Body, depth: nat)
    decreases b
  {
    b.Entry? ==> depth + 1 <= SIZE_MAX / 2 && NodeFits(b.value, depth + 1) && BodyFits(b.rest, depth)
  }

  /** The longest number the transcoder's buffer can grow to: doubling it once
      more wraps to zero. */
  const NUMBER_ROOM: nat := 0x8000_0000_0000_0000

  /** Every number of the tree fits the transcoder's buffer. */
  ghost predicate TokensFit(n: Node)
    decreases n
  {
    match n
    case Num(token) => |token| <= NUMBER_ROOM
    case Box(_, body) => BodyTokensFit(body)
    case _ => true
  }

  ghost predicate BodyTokensFit(b: Body)
    decreases b
  {
    b.Entry? ==> TokensFit(b.value) && BodyTokensFit(b.rest)
  }

  /** The levels below `base` that can be indented. */
  function LevelsBelow(base: nat): nat {
    if base < SIZE_MAX / 2 then SIZE_MAX / 2 - base else 0
  }

  /** What the transcoder accepts: it pairs no surrogates and has no limit but the
      size of its number buffer; the pretty form must indent every entry. */
  function TranscodeRules(pretty: bool, base: nat): Rules {
    Rules(Limits(0, 0, NUMBER_ROOM, 0, 0), false, if pretty then Below(LevelsBelow(base)) else AnyLevel)
  }

  /** The transcoder's rules, said of the tree. */
  lemma {:induction false} TranscodeRulesMean(n: Node, d: nat, pretty: bool, base: nat)
    ensures NodeWithin(n, d, TranscodeRules(pretty, base)) <==> TokensFit(n) && (pretty ==> NodeFits(n, base + d))
    decreases n
  {
    if n.Box? {
      BodyTranscodeRulesMean(n.body, d, pretty, base);
    }
  }

  lemma {:induction false} BodyTranscodeRulesMean(b: Body, d: nat, pretty: bool, base: nat)
    ensures BodyWithin(b, d, TranscodeRules(pretty, base)) <==> BodyTokensFit(b) && (pretty ==> BodyFits(b, base + d))
    decreases b
  {
    if b.Entry? {
      TranscodeRulesMean(b.value, d + 1, pretty, base);
      BodyTranscodeRulesMean(b.rest, d, pretty, base);
    }
  }

  /** In a text no longer than the number buffer can be, every number fits it. */
  lemma {:induction false} ShortTextFits(n: Node)
    requires |NodeText(n)| <= NUMBER_ROOM
    ensures TokensFit(n)
    decreases n
  {
    if n.Box? {
      ShortBodyFits(n.isObject, n.body, true);
    }
  }

  lemma {:induction false} ShortBodyFits(isObject: bool, b: Body, first: bool)
    requires |BodyText(isObject, b, first)| <= NUMBER_ROOM
    ensures BodyTokensFit(b)
    decreases b
  {
    hide NodeText, KeyText, CommaText;
    if b.Entry? {
      EntryAt([], 0, isObject, first, b);
      ShortTextFits(b.value);
      ShortBodyFits(isObject, b.rest, false);
    }
  }

  // ----- Rewriting keeps the tree -----

  lemma {:induction false} RelayoutWellFormed(n: Node, pretty: bool, depth: nat)
    requires NodeWellFormed(n)
    ensures NodeWellFormed(Relayout(n, pretty, depth))
    decreases n
  {
    if n.Box? {
      RelayoutBodyWellFormed(n.body, n.isObject, true, pretty, depth);
    }
  }

  lemma {:induction false} RelayoutBodyWellFormed(b: Body, isObject: bool, first: bool, pretty: bool, depth: nat)
    requires BodyWellFormed(isObject, b, first)
    ensures BodyWellFormed(isObject, RelayoutBody(b, isObject, first, pretty, depth), first)
    decreases b
  {
    hide Break;
    if b.Entry? {
      RelayoutWellFormed(b.value, pretty, depth + 1);
      RelayoutBodyWellFormed(b.rest, isObject, false, pretty, depth);
    }
  }

  /** Only the last rewriting counts. */
  lemma {:induction false} RelayoutTwice(n: Node, p: bool, d: nat, pretty: bool, depth: nat)
    ensures Relayout(Relayout(n, p, d), pretty, depth) == Relayout(n, pretty, depth)
    decreases n
  {
    if n.Box? {
      RelayoutBodyTwice(n.body, n.isObject, true, p, d, pretty, depth);
    }
  }

  lemma {:induction false} RelayoutBodyTwice(b: Body, isObject: bool, first: bool, p: bool, d: nat, pretty: bool, depth: nat)
    ensures RelayoutBody(RelayoutBody(b, isObject, first, p, d), isObject, first, pretty, depth) == RelayoutBody(b, isObject, first, pretty, depth)
    decreases b
  {
    if b.Entry? {
      RelayoutTwice(b.value, p, d + 1, pretty, depth + 1);
      RelayoutBodyTwice(b.rest, isObject, false, p, d, pretty, depth);
    }
  }

  lemma {:induction false} RelayoutWalk(n: Node, pretty: bool, depth: nat)
    ensures Walk(Relayout(n, pretty, depth)) == Walk(n)
    decreases n
  {
    if n.Box? {
      RelayoutWalkBody(n.body, n.isObject, true, pretty, depth);
    }
  }

  lemma {:induction false} RelayoutWalkBody(b: Body, isObject: bool, first: bool, pretty: bool, depth: nat)
    ensures WalkBody(RelayoutBody(b, isObject, first, pretty, depth)) == WalkBody(b)
    decreases b
  {
    if b.Entry? {
      RelayoutWalk(b.value, pretty, depth + 1);
      RelayoutWalkBody(b.rest, isObject, false, pretty, depth);
    }
  }

  lemma {:induction false} RelayoutWithin(n: Node, pretty: bool, depth: nat, d: nat, rules: Rules)
    ensures NodeWithin(Relayout(n, pretty, depth), d, rules) <==> NodeWithin(n, d, rules)
    decreases n
  {
    if n.Box? {
      RelayoutBodyWithin(n.body, n.isObject, true, pretty, depth, d, rules);
    }
  }

  lemma {:induction false} RelayoutBodyWithin(b: Body, isObject: bool, first: bool, pretty: bool, depth: nat, d: nat, rules: Rules)
    ensures BodyWithin(RelayoutBody(b, isObject, first, pretty, depth), d, rules) <==> BodyWithin(b, d, rules)
    decreases b
  {
    if b.Entry? {
      RelayoutWithin(b.value, pretty, depth + 1, d + 1, rules);
      RelayoutBodyWithin(b.rest, isObject, false, pretty, depth, d, rules);
    }
  }

  // ----- Compact output is the text without its whitespace -----

  datatype Mode = Outside | Inside | Escaped

  ghost function Step(m: Mode, b: byte): Mode {
    match m
    case Outside => if b == QUOTE then Inside else Outside
    case Inside => if b == QUOTE then Outside else if b == BACKSLASH then Escaped else Inside
    case Escaped => Inside
  }

  /** Whether the bytes of a text are inside a string, after `s`. */
  ghost function After(s: bytes, m: Mode): Mode {
    if s == [] then m else After(s[1..], Step(m, s[0]))
  }

  /** A text with the whitespace outside its strings deleted and nothing else
      changed. */
  ghost function Strip(s: bytes, m: Mode): bytes {
    if s == [] then []
    else Keep(s[0], m) + Strip(s[1..], Step(m, s[0]))
  }

  ghost function Keep(b: byte, m: Mode): bytes {
    if m.Outside? && IsSpace(b) then [] else [b]
  }

  lemma {:induction false} StripConcat(a: bytes, b: bytes, m: Mode)
    ensures Strip(a + b, m) == Strip(a, m) + Strip(b, After(a, m))
    ensures After(a + b, m) == After(b, After(a, m))
  {
    hide Keep, Step;
    if a == [] {
      assert a + b == b;
    } else {
      assert (a + b)[1..] == a[1..] + b && (a + b)[0] == a[0];
      StripConcat(a[1..], b, Step(m, a[0]));
      var rest := Strip(a[1..], Step(m, a[0]));
      assert Keep(a[0], m) + (rest + Strip(b, After(a, m))) == Keep(a[0], m) + rest + Strip(b, After(a, m));
    }
  }

  /** Reading `s` in mode `m` keeps all of it and ends in mode `m'`. */
  ghost predicate Kept(s: bytes, m: Mode, m': Mode) {
    Strip(s, m) == s && After(s, m) == m'
  }

  lemma KeptConcat(a: bytes, b: bytes, m: Mode, m': Mode, m'': Mode)
    requires Kept(a, m, m') && Kept(b, m', m'')
    ensures Kept(a + b, m, m'')
  {
    StripConcat(a, b, m);
  }

  lemma KeptOne(b: byte, m: Mode)
    requires m.Outside? ==> !IsSpace(b)
    ensures Kept([b], m, Step(m, b))
  {
    assert Strip([b], m) == [b] + Strip([b][1..], Step(m, b));
    assert After([b], m) == After([b][1..], Step(m, b));
  }

  lemma {:induction false} KeptPlain(s: bytes)
    requires forall i :: 0 <= i < |s| ==> s[i] != QUOTE && !IsSpace(s[i])
    ensures Kept(s, Outside, Outside)
  {
    if s != [] {
      KeptPlain(s[1..]);
      assert s == [s[0]] + s[1..];
    }
  }

  lemma {:induction false} StripSpace(w: bytes)
    requires AllSpace(w)
    ensures Strip(w, Outside) == [] && After(w, Outside) == Outside
  {
    if w != [] {
      StripSpace(w[1..]);
    }
  }

  lemma KeptItem(i: Item)
    requires ItemWellFormed(i)
    ensures Kept(ItemText(i), Inside, Inside)
  {
    match i
    case Raw(b) => KeptOne(b, Inside);
    case Escape(code) =>
      KeptOne(BACKSLASH, Inside);
      KeptOne(code, Escaped);
      KeptConcat([BACKSLASH], [code], Inside, Escaped, Inside);
      assert ItemText(i) == [BACKSLASH] + [code];
    case Unicode(h) => KeptUnicode(h);
  }

  lemma KeptUnicode(h: bytes)
    requires IsHex4(h)
    ensures Kept(ItemText(Unicode(h)), Inside, Inside)
  {
    hide Kept, Step;
    KeptBackslash(117);
    KeptHex(h[0]);
    KeptHex(h[1]);
    KeptHex(h[2]);
    KeptHex(h[3]);
    KeptConcat([h[2]], [h[3]], Inside, Inside, Inside);
    KeptConcat([h[1]], [h[2]] + [h[3]], Inside, Inside, Inside);
    KeptConcat([h[0]], [h[1]] + ([h[2]] + [h[3]]), Inside, Inside, Inside);
    assert h == [h[0]] + ([h[1]] + ([h[2]] + [h[3]]));
    KeptConcat([BACKSLASH, 117], h, Inside, Inside, Inside);
  }

  lemma KeptBackslash(b: byte)
    ensures Kept([BACKSLASH, b], Inside, Inside)
  {
    KeptOne(BACKSLASH, Inside);
    KeptOne(b, Escaped);
    KeptConcat([BACKSLASH], [b], Inside, Escaped, Inside);
    assert [BACKSLASH, b] == [BACKSLASH] + [b];
  }

  lemma KeptHex(b: byte)
    requires IsHex(b)
    ensures Kept([b], Inside, Inside)
  {
    KeptOne(b, Inside);
  }

  lemma {:induction false} KeptChars(c: Chars)
    requires CharsWellFormed(c)
    ensures Kept(CharsText(c), Inside, Outside)
  {
    hide Kept, ItemText, ItemWellFormed;
    if c.Char? {
      KeptItem(c.item);
      KeptChars(c.rest);
      KeptConcat(ItemText(c.item), CharsText(c.rest), Inside, Inside, Outside);
    } else {
      KeptOne(QUOTE, Inside);
    }
  }

  lemma KeptString(c: Chars)
    requires CharsWellFormed(c)
    ensures Kept(StringText(c), Outside, Outside)
  {
    hide Kept, CharsText;
    KeptOne(QUOTE, Outside);
    KeptChars(c);
    KeptConcat([QUOTE], CharsText(c), Outside, Inside, Outside);
  }

  lemma KeptWord(w: Word)
    ensures Kept(WordText(w), Outside, Outside)
  {
    KeptPlain(WordText(w));
  }

  lemma KeptNumber(token: bytes)
    requires IsNumber(token)
    ensures Kept(token, Outside, Outside)
  {
    NumberBytes(token);
    KeptPlain(token);
  }

  /** Stripping `s` leaves `r`, from outside any string to outside any string. */
  ghost predicate Strips(s: bytes, r: bytes) {
    Strip(s, Outside) == r && After(s, Outside) == Outside
  }

  lemma StripsKept(s: bytes)
    requires Kept(s, Outside, Outside)
    ensures Strips(s, s)
  {
  }

  lemma StripsSpace(w: bytes)
    requires AllSpace(w)
    ensures Strips(w, [])
  {
    StripSpace(w);
  }

  lemma StripsConcat(a: bytes, x: bytes, b: bytes, y: bytes)
    requires Strips(a, x) && Strips(b, y)
    ensures Strips(a + b, x + y)
  {
    StripConcat(a, b, Outside);
  }

  /** Whitespace in front of anything is deleted. */
  lemma StripsAfterSpace(w: bytes, b: bytes, y: bytes)
    requires AllSpace(w) && Strips(b, y)
    ensures Strips(w + b, y)
  {
    hide Strips;
    StripsSpace(w);
    StripsConcat(w, [], b, y);
    assert [] + y == y;
  }

  lemma StripsByte(b: byte)
    requires b != QUOTE && !IsSpace(b)
    ensures Strips([b], [b])
  {
    KeptOne(b, Outside);
  }

  lemma StripsComma(first: bool)
    ensures Strips(CommaText(first), CommaText(first))
  {
    if !first {
      StripsByte(COMMA);
    }
  }

  lemma StripsKey(isObject: bool, k: Key)
    requires KeyWellFormed(isObject, k)
    ensures Strips(KeyText(k), KeyText(RelayoutKey(k)))
  {
    hide Strips, StringText, CharsWellFormed;
    if k.Key? {
      var t := StringText(k.chars);
      KeptString(k.chars);
      StripsKept(t);
      StripsSpace(k.colonGap);
      StripsByte(COLON);
      StripsConcat(t, t, k.colonGap, []);
      StripsConcat(t + k.colonGap, t + [], [COLON], [COLON]);
    } else {
      StripsSpace([]);
    }
  }

  /** The compact form of a text is the text stripped. */
  lemma {:induction false} NodeStrips(n: Node, depth: nat)
    requires NodeWellFormed(n)
    ensures Strips(NodeText(n), NodeText(Relayout(n, false, depth)))
    decreases n
  {
    hide Strips, Kept, StringText, IsNumber, WordText, CharsWellFormed, BodyText, RelayoutBody, BodyWellFormed;
    match n
    case Literal(w) =>
      KeptWord(w);
      StripsKept(WordText(w));
    case Num(token) =>
      KeptNumber(token);
      StripsKept(token);
    case Str(c) =>
      KeptString(c);
      StripsKept(StringText(c));
    case Box(isObject, body) =>
      BodyStrips(body, isObject, true, depth);
      StripsByte(Opener(isObject));
      StripsConcat([Opener(isObject)], [Opener(isObject)], BodyText(isObject, body, true),
                   BodyText(isObject, RelayoutBody(body, isObject, true, false, depth), true));
  }

  /** The text of an entry in the compact form. */
  lemma CompactEntryText(e: Body, isObject: bool, first: bool, depth: nat)
    requires e.Entry?
    ensures BodyText(isObject, RelayoutBody(e, isObject, first, false, depth), first) ==
            CommaText(first) + (KeyText(RelayoutKey(e.key)) + (NodeText(Relayout(e.value, false, depth + 1))
              + BodyText(isObject, RelayoutBody(e.rest, isObject, false, false, depth), false)))
  {
    hide NodeText, KeyText, CommaText, Relayout, RelayoutKey;
  }

  lemma {:induction false} BodyStrips(b: Body, isObject: bool, first: bool, depth: nat)
    requires BodyWellFormed(isObject, b, first)
    ensures Strips(BodyText(isObject, b, first), BodyText(isObject, RelayoutBody(b, isObject, first, false, depth), first))
    decreases b
  {
    hide Strips, KeyText, NodeText, CommaText, Relayout, RelayoutKey, NodeWellFormed, KeyWellFormed, AllSpace;
    if b.End? {
      StripsByte(Closer(isObject));
      StripsAfterSpace(b.before, [Closer(isObject)], [Closer(isObject)]);
      assert RelayoutBody(b, isObject, first, false, depth) == End([]);
      assert [] + [Closer(isObject)] == [Closer(isObject)];
    } else {
      EntryStrips(b, isObject, first, depth);
    }
  }

  lemma {:induction false} EntryStrips(b: Body, isObject: bool, first: bool, depth: nat)
    requires b.Entry? && BodyWellFormed(isObject, b, first)
    ensures Strips(BodyText(isObject, b, first), BodyText(isObject, RelayoutBody(b, isObject, first, false, depth), first))
    decreases b, 0
  {
    hide *;
    var Entry(before, lead, key, gap, value, rest) := b;
    EntryWellFormed(b, isObject, first);
    var k, v, r := KeyText(key), NodeText(value), BodyText(isObject, rest, false);
    var k', v' := KeyText(RelayoutKey(key)), NodeText(Relayout(value, false, depth + 1));
    var r' := BodyText(isObject, RelayoutBody(rest, isObject, false, false, depth), false);
    NodeStrips(value, depth + 1);
    BodyStrips(rest, isObject, false, depth);
    StripsKey(isObject, key);
    StripsComma(first);
    StripsConcat(v, v', r, r');
    StripsAfterSpace(gap, v + r, v' + r');
    StripsConcat(k, k', gap + (v + r), v' + r');
    StripsAfterSpace(lead, k + (gap + (v + r)), k' + (v' + r'));
    StripsConcat(CommaText(first), CommaText(first), lead + (k + (gap + (v + r))), k' + (v' + r'));
    StripsAfterSpace(before, CommaText(first) + (lead + (k + (gap + (v + r)))), CommaText(first) + (k' + (v' + r')));
    CompactEntryText(b, isObject, first, depth);
  }

  lemma EntryWellFormed(b: Body, isObject: bool, first: bool)
    requires b.Entry? && BodyWellFormed(isObject, b, first)
    ensures AllSpace(b.before) && AllSpace(b.lead) && AllSpace(b.gap) && KeyWellFormed(isObject, b.key)
    ensures NodeWellFormed(b.value) && BodyWellFormed(isObject, b.rest, false)
    ensures BodyText(isObject, b, first) ==
            b.before + (CommaText(first) + (b.lead + (KeyText(b.key) + (b.gap + (NodeText(b.value) + BodyText(isObject, b.rest, false))))))
  {
    hide AllSpace, KeyWellFormed, NodeWellFormed, KeyText, NodeText, CommaText;
  }

  // ----- Whole texts -----

  ghost function OutputText(n: Node, pretty: bool, base: nat): bytes {
    NodeText(Relayout(n, pretty, base))
  }

  /** The text written for a document, as a document. */
  ghost function OutputDocument(doc: Document, pretty: bool, base: nat): Document {
    Document([], Relayout(doc.value, pretty, base), [])
  }

  lemma OutputDocumentText(doc: Document, pretty: bool, base: nat)
    requires DocumentWellFormed(doc)
    ensures DocumentWellFormed(OutputDocument(doc, pretty, base))
    ensures DocumentText(OutputDocument(doc, pretty, base)) == OutputText(doc.value, pretty, base)
  {
    hide NodeText, Relayout, NodeWellFormed;
    RelayoutWellFormed(doc.value, pretty, base);
    var t := NodeText(Relayout(doc.value, pretty, base));
    assert [] + (t + []) == t;
  }

  /** Compact output is the text with the whitespace outside strings deleted and
      nothing else changed. */
  lemma CompactIsStripped(doc: Document, base: nat)
    requires DocumentWellFormed(doc)
    ensures Strip(DocumentText(doc), Outside) == OutputText(doc.value, false, base)
  {
    hide NodeText, Relayout, NodeWellFormed;
    NodeStrips(doc.value, base);
    StripsSpace(doc.lead);
    StripsSpace(doc.trail);
    var t, t' := NodeText(doc.value), OutputText(doc.value, false, base);
    StripsConcat(t, t', doc.trail, []);
    StripsAfterSpace(doc.lead, t + doc.trail, t' + []);
    assert t' + [] == t';
  }

  /** Of the texts any rules accept, the transcoder accepts those whose numbers
      fit its buffer and whose entries can be indented. */
  lemma TranscodableIfAccepted(text: bytes, rules: Rules, doc: Document, pretty: bool, base: nat)
    requires DocumentAccepted(text, rules, doc)
    ensures DocumentAccepted(text, TranscodeRules(pretty, base), doc) <==> TokensFit(doc.value) && (pretty ==> NodeFits(doc.value, base))
  {
    hide NodeWithin, NodeWellFormed, NodeFits, TokensFit;
    TranscodeRulesMean(doc.value, 0, pretty, base);
  }

  /** The written text keeps every limit but the one on its total length, has
      the written document as its only tree, and the same events. */
  lemma OutputAccepted(text: bytes, rules: Rules, doc: Document, pretty: bool, base: nat)
    requires DocumentAccepted(text, rules, doc)
    ensures var out := OutputText(doc.value, pretty, base);
            var rules' := rules.(limits := rules.limits.(maxTotal := 0));
            DocumentAccepted(out, rules', OutputDocument(doc, pretty, base))
    ensures Walk(OutputDocument(doc, pretty, base).value) == Walk(doc.value)
  {
    hide NodeText, Relayout, NodeWellFormed, Walk;
    var rules' := rules.(limits := rules.limits.(maxTotal := 0));
    OutputDocumentText(doc, pretty, base);
    RelayoutWithin(doc.value, pretty, base, 0, rules);
    TotalIrrelevant(Relayout(doc.value, pretty, base), 0, rules);
    RelayoutWalk(doc.value, pretty, base);
  }

  lemma {:induction false} TotalIrrelevant(n: Node, d: nat, rules: Rules)
    ensures NodeWithin(n, d, rules.(limits := rules.limits.(maxTotal := 0))) <==> NodeWithin(n, d, rules)
    decreases n
  {
    if n.Box? {
      TotalIrrelevantBody(n.body, d, rules);
    }
  }

  lemma {:induction false} TotalIrrelevantBody(b: Body, d: nat, rules: Rules)
    ensures BodyWithin(b, d, rules.(limits := rules.limits.(maxTotal := 0))) <==> BodyWithin(b, d, rules)
    decreases b
  {
    if b.Entry? {
      TotalIrrelevant(b.value, d + 1, rules);
      TotalIrrelevantBody(b.rest, d, rules);
    }
  }
}
