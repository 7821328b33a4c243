/** The pretty form on bytes: a formatter over the text without its whitespace,
    which knows only whether it is in a string and how deep it is. */
module Layouts {
  import opened Bytes
  import opened Grammar
  import opened Scanner
  import opened GrammarProofs
  import opened Rewriting
  import opened Transcoders

  /** In which mode a byte is read, how many containers are open, and whether the
      byte before it opened one. */
  datatype Place = Place(mode: Mode, level: nat, entered: bool)

  predicate Opens(b: byte) {
    b == '{' as int || b == '[' as int
  }

  predicate Closes(b: byte) {
    b == '}' as int || b == ']' as int
  }

  /** A newline and two spaces per level. */
  ghost function Line(level: nat): bytes {
    ['\n' as int] + TwoSpaces(level)
  }

  ghost function TwoSpaces(level: nat): bytes {
    if level == 0 then [] else [' ' as int, ' ' as int] + TwoSpaces(level - 1)
  }

  /** What is written for one byte: a line before what an opener is followed by,
      unless its closer; a line before a closer, unless it follows its opener; a line
      after a comma; a space after a colon. Strings are copied. */
  ghost function Pretty(b: byte, p: Place): bytes {
    if !p.mode.Outside? then [b]
    else
      (if p.entered then (if Closes(b) then [] else Line(p.level))
       else if Closes(b) then Line(if p.level == 0 then 0 else p.level - 1) else [])
      + [b]
      + (if b == ',' as int then Line(p.level) else if b == ':' as int then [' ' as int] else [])
  }

  ghost function Next(b: byte, p: Place): Place {
    if !p.mode.Outside? then Place(Step(p.mode, b), p.level, false)
    else if Opens(b) then Place(Outside, p.level + 1, true)
    else if Closes(b) then Place(Outside, if p.level == 0 then 0 else p.level - 1, false)
    else Place(Step(p.mode, b), p.level, false)
  }

  ghost function Format(s: bytes, p: Place): bytes {
    if s == [] then [] else Pretty(s[0], p) + Format(s[1..], Next(s[0], p))
  }

  ghost function PlaceAfter(s: bytes, p: Place): Place {
    if s == [] then p else PlaceAfter(s[1..], Next(s[0], p))
  }

  /** `s` read from `p` is written as `r`, and leads to `q`. */
  ghost predicate Formats(s: bytes, p: Place, r: bytes, q: Place) {
    Format(s, p) == r && PlaceAfter(s, p) == q
  }

  lemma {:induction false} FormatConcat(a: bytes, b: bytes, p: Place)
    ensures Format(a + b, p) == Format(a, p) + Format(b, PlaceAfter(a, p))
    ensures PlaceAfter(a + b, p) == PlaceAfter(b, PlaceAfter(a, p))
    decreases |a|
  {
    hide Pretty, Next;
    if a == [] {
      assert a + b == b;
    } else {
      assert (a + b)[1..] == a[1..] + b && (a + b)[0] == a[0];
      var q := Next(a[0], p);
      FormatConcat(a[1..], b, q);
      assert Pretty(a[0], p) + (Format(a[1..], q) + Format(b, PlaceAfter(a, p))) == Pretty(a[0], p) + Format(a[1..], q) + Format(b, PlaceAfter(a, p));
    }
  }

  lemma FormatsMore(a: bytes, x: bytes, b: bytes, y: bytes, p: Place, q: Place, r: Place)
    requires Formats(a, p, x, q) && Formats(b, q, y, r)
    ensures Formats(a + b, p, x + y, r)
  {
    FormatConcat(a, b, p);
  }

  lemma FormatsOne(b: byte, p: Place)
    ensures Formats([b], p, Pretty(b, p), Next(b, p))
  {
    hide Pretty, Next;
    assert [b][1..] == [];
    assert Format([b], p) == Pretty(b, p) + Format([b][1..], Next(b, p));
    assert PlaceAfter([b], p) == PlaceAfter([b][1..], Next(b, p));
  }

  lemma FormatsNone(p: Place)
    ensures Formats([], p, [], p)
  {
  }

  /** What comes before a value that follows an opener. */
  ghost function Lead(entered: bool, level: nat): bytes {
    if entered then Line(level) else []
  }

  // ----- Strings, numbers and words -----

  predicate InsideByte(b: byte) {
    b != QUOTE && b != BACKSLASH
  }

  lemma {:induction false} CopiedInside(s: bytes, level: nat)
    requires forall i :: 0 <= i < |s| ==> InsideByte(s[i])
    ensures Formats(s, Place(Inside, level, false), s, Place(Inside, level, false))
    decreases |s|
  {
    if s != [] {
      CopiedInside(s[1..], level);
      assert s == [s[0]] + s[1..];
    }
  }

  lemma CopiedBackslash(b: byte, level: nat)
    ensures Formats([BACKSLASH, b], Place(Inside, level, false), [BACKSLASH, b], Place(Inside, level, false))
  {
    FormatsOne(BACKSLASH, Place(Inside, level, false));
    FormatsOne(b, Place(Escaped, level, false));
    FormatsMore([BACKSLASH], [BACKSLASH], [b], [b], Place(Inside, level, false), Place(Escaped, level, false), Place(Inside, level, false));
    assert [BACKSLASH] + [b] == [BACKSLASH, b];
  }

  lemma CopiedItem(i: Item, level: nat)
    requires ItemWellFormed(i)
    ensures Formats(ItemText(i), Place(Inside, level, false), ItemText(i), Place(Inside, level, false))
  {
    hide Formats;
    var p := Place(Inside, level, false);
    match i
    case Raw(b) => CopiedInside([b], level);
    case Escape(code) => CopiedBackslash(code, level);
    case Unicode(h) =>
      CopiedBackslash(117, level);
      CopiedInside(h, level);
      FormatsMore([BACKSLASH, 117], [BACKSLASH, 117], h, h, p, p, p);
  }

  lemma {:induction false} CopiedChars(c: Chars, level: nat)
    requires CharsWellFormed(c)
    ensures Formats(CharsText(c), Place(Inside, level, false), CharsText(c), Place(Outside, level, false))
    decreases c
  {
    hide Formats, ItemText, ItemWellFormed;
    var p, q := Place(Inside, level, false), Place(Outside, level, false);
    if c.Char? {
      CopiedItem(c.item, level);
      CopiedChars(c.rest, level);
      FormatsMore(ItemText(c.item), ItemText(c.item), CharsText(c.rest), CharsText(c.rest), p, p, q);
    } else {
      FormatsOne(QUOTE, p);
    }
  }

  lemma FormatsString(c: Chars, level: nat, entered: bool)
    requires CharsWellFormed(c)
    ensures Formats(StringText(c), Place(Outside, level, entered), Lead(entered, level) + StringText(c), Place(Outside, level, false))
  {
    hide Formats, CharsText, Line, CharsWellFormed;
    var p := Place(Outside, level, entered);
    FormatsOne(QUOTE, p);
    CopiedChars(c, level);
    assert Pretty(QUOTE, p) == Lead(entered, level) + [QUOTE];
    FormatsMore([QUOTE], Lead(entered, level) + [QUOTE], CharsText(c), CharsText(c), p, Place(Inside, level, false), Place(Outside, level, false));
    assert Lead(entered, level) + [QUOTE] + CharsText(c) == Lead(entered, level) + ([QUOTE] + CharsText(c));
  }

  /** A byte that stands for itself outside strings. */
  predicate AtomByte(b: byte) {
    !Opens(b) && !Closes(b) && b != COMMA && b != COLON && b != QUOTE
  }

  lemma {:induction false} CopiedAtom(s: bytes, level: nat)
    requires forall i :: 0 <= i < |s| ==> AtomByte(s[i])
    ensures Formats(s, Place(Outside, level, false), s, Place(Outside, level, false))
    decreases |s|
  {
    hide Line;
    if s != [] {
      CopiedAtom(s[1..], level);
      assert Pretty(s[0], Place(Outside, level, false)) == [s[0]];
      assert s == [s[0]] + s[1..];
    }
  }

  lemma FormatsAtom(s: bytes, level: nat, entered: bool)
    requires s != [] && forall i :: 0 <= i < |s| ==> AtomByte(s[i])
    ensures Formats(s, Place(Outside, level, entered), Lead(entered, level) + s, Place(Outside, level, false))
  {
    hide Formats, Line;
    var p, q := Place(Outside, level, entered), Place(Outside, level, false);
    FormatsOne(s[0], p);
    CopiedAtom(s[1..], level);
    assert Pretty(s[0], p) == Lead(entered, level) + [s[0]];
    FormatsMore([s[0]], Lead(entered, level) + [s[0]], s[1..], s[1..], p, q, q);
    assert s == [s[0]] + s[1..];
    assert Lead(entered, level) + [s[0]] + s[1..] == Lead(entered, level) + s;
  }

  lemma NumberIsAtom(token: bytes)
    requires IsNumber(token)
    ensures token != [] && forall i :: 0 <= i < |token| ==> AtomByte(token[i])
  {
    NumberBytes(token);
  }

  lemma WordIsAtom(w: Word)
    ensures WordText(w) != [] && forall i :: 0 <= i < |WordText(w)| ==> AtomByte(WordText(w)[i])
  {
  }

  // ----- Values -----

  lemma {:induction false} SpacesAreTwice(level: nat)
    ensures TwoSpaces(level) == Spaces(2 * level)
  {
    if level != 0 {
      SpacesAreTwice(level - 1);
    }
  }

  lemma LineIsBreak(level: nat)
    ensures Line(level) == Break(level)
  {
    SpacesAreTwice(level);
  }

  lemma FormatsKey(c: Chars, level: nat, entered: bool)
    requires CharsWellFormed(c)
    ensures var k := KeyText(Key(c, []));
            Formats(k, Place(Outside, level, entered), Lead(entered, level) + (k + [SPACE]), Place(Outside, level, false))
  {
    hide Formats, StringText, Line, CharsWellFormed, Lead;
    var p, q := Place(Outside, level, entered), Place(Outside, level, false);
    var t, l := StringText(c), Lead(entered, level);
    FormatsString(c, level, entered);
    FormatsOne(COLON, q);
    assert Pretty(COLON, q) == [COLON, SPACE];
    FormatsMore(t, l + t, [COLON], [COLON, SPACE], p, q, q);
    assert t + [] + [COLON] == t + [COLON];
    assert l + t + [COLON, SPACE] == l + (t + [] + [COLON] + [SPACE]);
  }

  lemma FormatsComma(first: bool, level: nat)
    ensures Formats(CommaText(first), Place(Outside, level, first), if first then [] else [COMMA] + Line(level), Place(Outside, level, first))
  {
    hide Formats, Line;
    var p := Place(Outside, level, first);
    if first {
      FormatsNone(p);
    } else {
      FormatsOne(COMMA, p);
      assert Pretty(COMMA, p) == [COMMA] + Line(level);
    }
  }

  lemma FormatsCloser(isObject: bool, first: bool, level: nat)
    ensures Formats([Closer(isObject)], Place(Outside, level + 1, first), (if first then [] else Line(level)) + [Closer(isObject)], Place(Outside, level, false))
  {
    hide Formats, Line;
    FormatsOne(Closer(isObject), Place(Outside, level + 1, first));
    var b := Closer(isObject);
    assert Pretty(b, Place(Outside, level + 1, first)) == (if first then [] else Line(level)) + [b];
  }

  /** The compact text of a value is formatted into its pretty text. */
  lemma {:induction false} FormatsNode(n: Node, level: nat, entered: bool)
    requires NodeWellFormed(n)
    ensures Formats(OutputText(n, false, level), Place(Outside, level, entered), Lead(entered, level) + OutputText(n, true, level),
                    Place(Outside, level, false))
    decreases n, 1
  {
    hide Formats, StringText, WordText, IsNumber, Line, Lead, BodyOutput, CharsWellFormed, BodyWellFormed, RelayoutBody, BodyText;
    match n
    case Literal(w) =>
      WordIsAtom(w);
      FormatsAtom(WordText(w), level, entered);
    case Num(token) =>
      NumberIsAtom(token);
      FormatsAtom(token, level, entered);
    case Str(c) =>
      FormatsString(c, level, entered);
    case Box(isObject, body) =>
      FormatsBox(isObject, body, level, entered);
  }

  lemma OpenerIs(isObject: bool, level: nat, entered: bool)
    ensures Formats([Opener(isObject)], Place(Outside, level, entered), Lead(entered, level) + [Opener(isObject)], Place(Outside, level + 1, true))
  {
    hide Formats, Line;
    var b := Opener(isObject);
    FormatsOne(b, Place(Outside, level, entered));
    assert Pretty(b, Place(Outside, level, entered)) == Lead(entered, level) + [b];
  }

  lemma {:induction false} FormatsBox(isObject: bool, body: Body, level: nat, entered: bool)
    requires BodyWellFormed(isObject, body, true)
    ensures Formats(OutputText(Box(isObject, body), false, level), Place(Outside, level, entered),
                    Lead(entered, level) + OutputText(Box(isObject, body), true, level), Place(Outside, level, false))
    decreases body, 2
  {
    hide Formats, Line, Lead, BodyOutput, BodyWellFormed, OutputText;
    OpenerIs(isObject, level, entered);
    FormatsBody(body, isObject, true, level);
    BoxOutput(isObject, body, false, level);
    BoxOutput(isObject, body, true, level);
    var l, o := Lead(entered, level), [Opener(isObject)];
    var x, y := BodyOutput(body, isObject, true, false, level), BodyOutput(body, isObject, true, true, level);
    FormatsMore(o, l + o, x, y, Place(Outside, level, entered), Place(Outside, level + 1, true), Place(Outside, level, false));
    assert l + o + y == l + (o + y);
  }

  lemma {:induction false} FormatsBody(b: Body, isObject: bool, first: bool, level: nat)
    requires BodyWellFormed(isObject, b, first)
    ensures Formats(BodyOutput(b, isObject, first, false, level), Place(Outside, level + 1, first),
                    BodyOutput(b, isObject, first, true, level), Place(Outside, level, false))
    decreases b, 1
  {
    hide Formats, Line, BodyOutput, KeyWellFormed, NodeWellFormed, Break;
    if b.End? {
      FormatsCloser(isObject, first, level);
      LineIsBreak(level);
      BodyOutputEnd(b.before, isObject, first, false, level);
      BodyOutputEnd(b.before, isObject, first, true, level);
      assert (if first then [] else []) + [Closer(isObject)] == [Closer(isObject)];
    } else {
      FormatsEntry(b, isObject, first, level);
    }
  }

  lemma {:induction false} FormatsEntry(e: Body, isObject: bool, first: bool, level: nat)
    requires e.Entry? && BodyWellFormed(isObject, e, first)
    ensures Formats(BodyOutput(e, isObject, first, false, level), Place(Outside, level + 1, first),
                    BodyOutput(e, isObject, first, true, level), Place(Outside, level, false))
    decreases e, 0
  {
    hide *;
    var p, q, r := Place(Outside, level + 1, first), Place(Outside, level + 1, first && !isObject), Place(Outside, level + 1, false);
    EntryWellFormed(e, isObject, first);
    KeyKindOf(isObject, e.key);
    FormatsComma(first, level + 1);
    FormatsEntryKey(isObject, e.key, first, level + 1);
    FormatsNode(e.value, level + 1, first && !isObject);
    FormatsBody(e.rest, isObject, false, level);
    BodyOutputEntry(e, isObject, first, false, level);
    BodyOutputEntry(e, isObject, first, true, level);
    EntryInPieces(e, isObject, first, level);
    var c, c' := CommaText(first), if first then [] else [COMMA] + Line(level + 1);
    var k, k' := KeyText(RelayoutKey(e.key)), EntryKey(isObject, e.key, first, level + 1);
    var v, v' := OutputText(e.value, false, level + 1), Lead(first && !isObject, level + 1) + OutputText(e.value, true, level + 1);
    FormatsMore(c, c', k, k', p, p, q);
    FormatsMore(c + k, c' + k', v, v', p, q, r);
    FormatsMore(c + k + v, c' + k' + v', BodyOutput(e.rest, isObject, false, false, level), BodyOutput(e.rest, isObject, false, true, level),
                p, r, Place(Outside, level, false));
  }

  /** What is written for the key of an entry. */
  ghost function EntryKey(isObject: bool, key: Key, first: bool, level: nat): bytes {
    if isObject then Lead(first, level) + (KeyText(RelayoutKey(key)) + [SPACE]) else []
  }

  lemma KeyKindOf(isObject: bool, key: Key)
    requires KeyWellFormed(isObject, key)
    ensures key.Key? <==> isObject
  {
  }

  lemma FormatsEntryKey(isObject: bool, key: Key, first: bool, level: nat)
    requires KeyWellFormed(isObject, key)
    ensures Formats(KeyText(RelayoutKey(key)), Place(Outside, level, first), EntryKey(isObject, key, first, level),
                    Place(Outside, level, first && !isObject))
  {
    hide Formats, Lead;
    if isObject {
      FormatsKey(key.chars, level, first);
    } else {
      FormatsNone(Place(Outside, level, first));
    }
  }

  /** The compact and the pretty text of an entry, in the formatter's pieces. */
  lemma EntryInPieces(e: Body, isObject: bool, first: bool, level: nat)
    requires e.Entry? && (e.key.Key? <==> isObject)
    ensures EntryOutput(isObject, first, e.key, e.value, false, level) ==
            CommaText(first) + KeyText(RelayoutKey(e.key)) + OutputText(e.value, false, level + 1)
    ensures EntryOutput(isObject, first, e.key, e.value, true, level) ==
            (if first then [] else [COMMA] + Line(level + 1)) + EntryKey(isObject, e.key, first, level + 1)
            + (Lead(first && !isObject, level + 1) + OutputText(e.value, true, level + 1))
  {
    hide OutputText, KeyText, RelayoutKey, Line, Break;
    LineIsBreak(level + 1);
    var l, k, v, v' := Line(level + 1), KeyText(RelayoutKey(e.key)), OutputText(e.value, false, level + 1), OutputText(e.value, true, level + 1);
    if !isObject {
      NoKeyText(e.key);
    }
    assert CommaText(first) + [] + (k + []) + v == CommaText(first) + k + v;
    if isObject {
      assert first ==> [] + l + (k + [SPACE]) + v' == [] + (l + (k + [SPACE])) + ([] + v');
      assert [COMMA] + l + (k + [SPACE]) + v' == [COMMA] + l + ([] + (k + [SPACE])) + ([] + v');
    } else {
      assert [] + l + ([] + []) + v' == [] + [] + (l + v');
      assert [COMMA] + l + ([] + []) + v' == [COMMA] + l + [] + ([] + v');
    }
  }

  /** Pretty output is the text without its whitespace, formatted. */
  lemma PrettyIsFormatted(text: bytes, base: nat, out: bytes)
    requires Transcoded(text, true, base, Ok, out)
    ensures out == Format(Strip(text, Outside), Place(Outside, base, false))
  {
    hide DocumentText, OutputText, Strip, ScanDocument, NodeWithin, NodeWellFormed, Format, PlaceAfter;
    var doc :| DocumentAccepted(text, TranscodeRules(true, base), doc);
    CompactIsStripped(doc, base);
    FormatsNode(doc.value, base, false);
    assert [] + OutputText(doc.value, true, base) == OutputText(doc.value, true, base);
  }
}
