/** The visitor and the transcoder read the same language: what one accepts the
    other does, and a rewritten text is visited alike. */
module Agreement {
  import opened Bytes
  import opened Grammar
  import opened Scanner
  import opened GrammarProofs
  import opened Trace
  import opened Visitors
  import opened Rewriting
  import opened Transcoders

  /** Nesting within a depth limit can be indented when the limit can. */
  lemma {:induction false} DepthLimitFits(n: Node, d: nat, rules: Rules, base: nat)
    requires NodeWithin(n, d, rules) && rules.limits.maxDepth != 0 && base + rules.limits.maxDepth <= SIZE_MAX / 2
    ensures NodeFits(n, base + d)
    decreases n
  {
    if n.Box? {
      BodyDepthLimitFits(n.body, d, rules, base);
    }
  }

  lemma {:induction false} BodyDepthLimitFits(b: Body, d: nat, rules: Rules, base: nat)
    requires BodyWithin(b, d, rules) && d < rules.limits.maxDepth && base + rules.limits.maxDepth <= SIZE_MAX / 2
    ensures BodyFits(b, base + d)
    decreases b
  {
    if b.Entry? {
      DepthLimitFits(b.value, d + 1, rules, base);
      BodyDepthLimitFits(b.rest, d, rules, base);
    }
  }

  /** A limit on numbers is one on the numbers of the tree. */
  lemma {:induction false} NumberLimitFits(n: Node, d: nat, rules: Rules)
    requires NodeWithin(n, d, rules) && 0 < rules.limits.maxNumber <= NUMBER_ROOM
    ensures TokensFit(n)
    decreases n
  {
    if n.Box? {
      BodyNumberLimitFits(n.body, d, rules);
    }
  }

  lemma {:induction false} BodyNumberLimitFits(b: Body, d: nat, rules: Rules)
    requires BodyWithin(b, d, rules) && 0 < rules.limits.maxNumber <= NUMBER_ROOM
    ensures BodyTokensFit(b)
    decreases b
  {
    if b.Entry? {
      NumberLimitFits(b.value, d + 1, rules);
      BodyNumberLimitFits(b.rest, d, rules);
    }
  }

  /** A text the visitor accepts is transcoded exactly when its numbers fit the
      transcoder's buffer and, for the pretty form, its entries can be indented. */
  lemma VisitedTextTranscodesExactly(text: bytes, rules: Rules, events: seq<Event>, doc: Document,
                                     pretty: bool, base: nat, status: Status, out: bytes)
    requires Answered(text, rules, Ok, events) && DocumentAccepted(text, rules, doc)
    requires Transcoded(text, pretty, base, status, out)
    ensures status == Ok <==> TokensFit(doc.value) && (pretty ==> NodeFits(doc.value, base))
  {
    hide ScanDocument, Walk, Flat, OutputText, DocumentAccepted, TokensFit, NodeFits, TranscodeRules;
    TranscodableIfAccepted(text, rules, doc, pretty, base);
    if status == Ok {
      var d :| DocumentAccepted(text, TranscodeRules(pretty, base), d);
      AnyTreeIsIt(text, rules, doc, TranscodeRules(pretty, base), d);
    }
  }

  /** A text of the grammar that rules without limits accept, and the transcoder does
      not: one number of 2^63 + 1 digits. */
  lemma LongNumberIsNotTranscoded()
    ensures var s := seq(NUMBER_ROOM + 1, _ => 49);
            var doc := Document([], Num(s), []);
            DocumentAccepted(s, UNLIMITED, doc) && !DocumentAccepted(s, TranscodeRules(false, 0), doc)
  {
    var s: bytes := seq(NUMBER_ROOM + 1, _ => 49);
    var n := Number(false, s, [], NoExponent);
    assert NumberWellFormed(n) && NumberText(n) == s;
    assert [] + (s + []) == s;
  }

  /** At a base level of half the size type no entry can be indented. */
  lemma DeepEntryIsNotIndented(base: nat)
    requires SIZE_MAX / 2 <= base
    ensures !NodeFits(Box(false, Entry([], [], NoKey, [], Literal(Null), End([]))), base)
  {
  }

  /** So it is transcoded when the text, or the limit on numbers, is no more than
      the buffer can hold, and the level leaves room for the depth limit. */
  lemma VisitedTextTranscodes(text: bytes, rules: Rules, events: seq<Event>, pretty: bool, base: nat, status: Status, out: bytes)
    requires Answered(text, rules, Ok, events) && Transcoded(text, pretty, base, status, out)
    requires |text| <= NUMBER_ROOM || 0 < rules.limits.maxNumber <= NUMBER_ROOM
    requires pretty ==> rules.limits.maxDepth != 0 && base + rules.limits.maxDepth <= SIZE_MAX / 2
    ensures status == Ok
  {
    hide ScanDocument, Walk, Flat, OutputText, NodeText, NodeWithin, NodeFits, TokensFit, TranscodeRules;
    var doc :| DocumentAccepted(text, rules, doc);
    if |text| <= NUMBER_ROOM {
      ShortTextFits(doc.value);
    } else {
      NumberLimitFits(doc.value, 0, rules);
    }
    if pretty {
      DepthLimitFits(doc.value, 0, rules, base);
    }
    VisitedTextTranscodesExactly(text, rules, events, doc, pretty, base, status, out);
  }

  /** Visiting a rewritten text, without a limit on its length and with the other
      limits as they were, succeeds and reports the same trace up to where texts
      are cut. */
  lemma RewrittenTextVisitsAlike(text: bytes, rules: Rules, events: seq<Event>, pretty: bool, base: nat, out: bytes,
                                 status: Status, events': seq<Event>)
    requires Answered(text, rules, Ok, events) && Transcoded(text, pretty, base, Ok, out)
    requires Answered(out, rules.(limits := rules.limits.(maxTotal := 0)), status, events')
    ensures status == Ok && Flat(events') == Flat(events)
  {
    hide ScanDocument, Walk, Flat, OutputText, DocumentAccepted, TranscodeRules;
    var doc :| DocumentAccepted(text, rules, doc);
    var d :| DocumentAccepted(text, TranscodeRules(pretty, base), d);
    AnyTreeIsIt(text, rules, doc, TranscodeRules(pretty, base), d);
    OutputAccepted(text, rules, doc, pretty, base);
  }
}
