/** The events of a visit, written back as text: they give the visited text without
    its whitespace, byte for byte where nothing is escaped. */
module Renderings {
  import opened Bytes
  import opened Grammar
  import opened Scanner
  import opened GrammarProofs
  import opened Trace
  import opened Rewriting
  import opened Visitors

  function Ascii(s: string): (r: bytes)
    ensures |r| == |s|
  {
    seq(|s|, i requires 0 <= i < |s| => if s[i] as int < 256 then s[i] as int else 0)
  }

  // ----- Events as text -----

  /** The event ends a value, so that another value needs a comma before it. */
  function EndsValue(e: Event, ended: bool): bool {
    match e
    case ObjectEnd | ArrayEnd | Boolean(_) | NullValue => true
    case ObjectBegin | ArrayBegin | Begin(_) => false
    case Finish(kind) => kind != OfKey
    case Chunk(_, _) => ended
  }

  /** What an event stands for. With `full` the bytes of strings and keys are
      written as reported, otherwise only their quotes are. */
  function Piece(e: Event, full: bool): bytes {
    match e
    case ObjectBegin => Ascii("{")
    case ObjectEnd => Ascii("}")
    case ArrayBegin => Ascii("[")
    case ArrayEnd => Ascii("]")
    case Boolean(value) => if value then Ascii("true") else Ascii("false")
    case NullValue => Ascii("null")
    case Begin(kind) => if kind == OfNumber then [] else Ascii("\"")
    case Chunk(kind, data) => if kind == OfNumber || full then data else []
    case Finish(kind) => if kind == OfKey then Ascii("\":") else if kind == OfString then Ascii("\"") else []
  }

  predicate Starts(e: Event) {
    e.ObjectBegin? || e.ArrayBegin? || e.Begin? || e.Boolean? || e.NullValue?
  }

  function Separator(e: Event, ended: bool): bytes {
    if ended && Starts(e) then Ascii(",") else []
  }

  function Render(t: seq<Event>, ended: bool, full: bool): bytes {
    if t == [] then [] else Separator(t[0], ended) + Piece(t[0], full) + Render(t[1..], EndsValue(t[0], ended), full)
  }

  function EndedAfter(t: seq<Event>, ended: bool): bool {
    if t == [] then ended else EndedAfter(t[1..], EndsValue(t[0], ended))
  }

  // ----- The text to compare with -----

  /** Outside strings all but whitespace; of a string its quotes and, with `full`,
      what is between them. */
  ghost function Shown(s: bytes, m: Mode, full: bool): bytes {
    if s == [] then [] else ShownByte(s[0], m, full) + Shown(s[1..], Step(m, s[0]), full)
  }

  ghost function ShownByte(b: byte, m: Mode, full: bool): bytes {
    if m.Outside? then (if b in Ascii(" \t\n\r") then [] else [b])
    else if full || (m.Inside? && b == QUOTE) then [b]
    else []
  }

  lemma {:induction false} ShownConcat(a: bytes, b: bytes, m: Mode, full: bool)
    ensures Shown(a + b, m, full) == Shown(a, m, full) + Shown(b, After(a, m), full)
    ensures After(a + b, m) == After(b, After(a, m))
    decreases |a|
  {
    hide Step, ShownByte;
    if a == [] {
      assert a + b == b;
    } else {
      assert (a + b)[1..] == a[1..] + b && (a + b)[0] == a[0];
      ShownConcat(a[1..], b, Step(m, a[0]), full);
      var x, y, z := ShownByte(a[0], m, full), Shown(a[1..], Step(m, a[0]), full), Shown(b, After(a, m), full);
      assert x + (y + z) == x + y + z;
    }
  }

  /** With `full`, what is shown is the text stripped. */
  lemma {:induction false} ShownIsStripped(s: bytes, m: Mode)
    ensures Shown(s, m, true) == Strip(s, m)
    decreases |s|
  {
    if s != [] {
      Spaces(s[0]);
      hide Ascii, IsSpace;
      ShownIsStripped(s[1..], Step(m, s[0]));
    }
  }

  lemma Spaces(b: byte)
    ensures IsSpace(b) <==> b in Ascii(" \t\n\r")
  {
    var w := Ascii(" \t\n\r");
    assert w[0] == 32 && w[1] == 9 && w[2] == 10 && w[3] == 13;
  }

  /** `s` is shown as `r`, from outside any string to outside any string. */
  ghost predicate Shows(s: bytes, r: bytes, full: bool) {
    Shown(s, Outside, full) == r && After(s, Outside) == Outside
  }

  lemma ShowsConcat(a: bytes, x: bytes, b: bytes, y: bytes, full: bool)
    requires Shows(a, x, full) && Shows(b, y, full)
    ensures Shows(a + b, x + y, full)
  {
    ShownConcat(a, b, Outside, full);
  }

  lemma {:induction false} ShowsSpace(w: bytes, full: bool)
    requires AllSpace(w)
    ensures Shows(w, [], full)
    decreases |w|
  {
    if w != [] {
      Spaces(w[0]);
      ShowsSpace(w[1..], full);
    }
  }

  lemma ShowsAfterSpace(w: bytes, b: bytes, y: bytes, full: bool)
    requires AllSpace(w) && Shows(b, y, full)
    ensures Shows(w + b, y, full)
  {
    hide Shows;
    ShowsSpace(w, full);
    ShowsConcat(w, [], b, y, full);
    assert [] + y == y;
  }

  lemma {:induction false} ShowsPlain(s: bytes, full: bool)
    requires forall i :: 0 <= i < |s| ==> s[i] != QUOTE && !IsSpace(s[i])
    ensures Shows(s, s, full)
    decreases |s|
  {
    if s != [] {
      Spaces(s[0]);
      ShowsPlain(s[1..], full);
      assert s == [s[0]] + s[1..];
    }
  }

  // ----- Strings -----

  /** Content without escapes stands for itself. */
  ghost predicate NoEscape(s: bytes) {
    forall i :: 0 <= i < |s| ==> s[i] != '\\' as int
  }

  lemma {:induction false} ShownChars(c: Chars, full: bool)
    requires CharsWellFormed(c) && (full ==> NoEscape(CharsText(c)))
    ensures Shown(CharsText(c), Inside, full) == (if full then Decode(c) else []) + [QUOTE]
    ensures After(CharsText(c), Inside) == Outside
    decreases c
  {
    hide HexValue, PairValue, Utf8, ShortEscapeByte;
    if c.Char? {
      var t := ItemText(c.item);
      assert forall i :: 0 <= i < |CharsText(c.rest)| ==> CharsText(c)[|t| + i] == CharsText(c.rest)[i];
      ShownChars(c.rest, full);
      ShownConcat(t, CharsText(c.rest), Inside, full);
      assert CharsText(c)[0] == t[0];
      ShownItem(c.item, full);
    }
  }

  lemma ShownItem(i: Item, full: bool)
    requires ItemWellFormed(i) && (full ==> i.Raw?)
    ensures Shown(ItemText(i), Inside, full) == if full then ItemText(i) else []
    ensures After(ItemText(i), Inside) == Inside
  {
    match i
    case Raw(b) => assert [b][1..] == [];
    case Escape(code) => HiddenBackslash(code);
    case Unicode(h) =>
      HiddenBackslash(117);
      HiddenHex(h);
      ShownConcat([BACKSLASH, 117], h, Inside, false);
  }

  lemma HiddenBackslash(b: byte)
    ensures Shown([BACKSLASH, b], Inside, false) == [] && After([BACKSLASH, b], Inside) == Inside
  {
    assert [BACKSLASH][1..] == [] && [b][1..] == [] && [BACKSLASH] + [b] == [BACKSLASH, b];
    ShownConcat([BACKSLASH], [b], Inside, false);
  }

  lemma {:induction false} HiddenHex(h: bytes)
    requires forall i :: 0 <= i < |h| ==> IsHex(h[i])
    ensures Shown(h, Inside, false) == [] && After(h, Inside) == Inside
    decreases |h|
  {
    if h != [] {
      HiddenHex(h[1..]);
    }
  }

  /** The bytes of a string or key that are written. */
  ghost function Content(c: Chars, full: bool): bytes {
    if full then Decode(c) else []
  }

  lemma ShowsString(c: Chars, full: bool)
    requires CharsWellFormed(c) && (full ==> NoEscape(StringText(c)))
    ensures Shows(StringText(c), [QUOTE] + Content(c, full) + [QUOTE], full)
  {
    hide CharsText;
    var t := CharsText(c);
    assert forall i :: 0 <= i < |t| ==> StringText(c)[1 + i] == t[i];
    assert ([QUOTE] + t)[1..] == t;
    Spaces(QUOTE);
    ShownChars(c, full);
  }

  // ----- Rendering in parts -----

  lemma {:induction false} RenderConcat(a: seq<Event>, b: seq<Event>, ended: bool, full: bool)
    ensures Render(a + b, ended, full) == Render(a, ended, full) + Render(b, EndedAfter(a, ended), full)
    ensures EndedAfter(a + b, ended) == EndedAfter(b, EndedAfter(a, ended))
    decreases |a|
  {
    hide Separator, Piece, EndsValue;
    if a == [] {
      assert a + b == b;
    } else {
      assert (a + b)[1..] == a[1..] + b && (a + b)[0] == a[0];
      RenderConcat(a[1..], b, EndsValue(a[0], ended), full);
      var x, y, z := Separator(a[0], ended) + Piece(a[0], full), Render(a[1..], EndsValue(a[0], ended), full), Render(b, EndedAfter(a, ended), full);
      assert x + (y + z) == x + y + z;
    }
  }

  /** The trace is written as `r` where a value has ended before or not, and then
      one has. */
  ghost predicate Renders(t: seq<Event>, ended: bool, r: bytes, after: bool, full: bool) {
    Render(t, ended, full) == r && EndedAfter(t, ended) == after
  }

  lemma RendersMore(a: seq<Event>, b: seq<Event>, ended: bool, x: bytes, mid: bool, y: bytes, after: bool, full: bool)
    requires Renders(a, ended, x, mid, full) && Renders(b, mid, y, after, full)
    ensures Renders(a + b, ended, x + y, after, full)
  {
    RenderConcat(a, b, ended, full);
  }

  lemma RendersOne(e: Event, ended: bool, full: bool)
    ensures Renders([e], ended, Separator(e, ended) + Piece(e, full), EndsValue(e, ended), full)
  {
    hide Separator, Piece, EndsValue;
    assert [e][1..] == [];
    assert Render([e], ended, full) == Separator(e, ended) + Piece(e, full) + Render([e][1..], EndsValue(e, ended), full);
    assert EndedAfter([e], ended) == EndedAfter([e][1..], EndsValue(e, ended));
  }

  lemma {:induction false} RendersChunks(kind: Kind, data: bytes, ended: bool, full: bool)
    ensures Renders(Explode(kind, data), ended, if kind == OfNumber || full then data else [], ended, full)
    decreases |data|
  {
    if data != [] {
      var e := Chunk(kind, data[..1]);
      RendersChunks(kind, data[1..], ended, full);
      RendersOne(e, ended, full);
      RendersMore([e], Explode(kind, data[1..]), ended, Piece(e, full), ended, if kind == OfNumber || full then data[1..] else [], ended, full);
      assert [data[0]] == data[..1];
      assert Explode(kind, data) == [e] + Explode(kind, data[1..]);
      assert data == data[..1] + data[1..];
    }
  }

  /** Cutting chunks into single bytes does not change what is written. */
  lemma {:induction false} RenderFlat(t: seq<Event>, ended: bool, full: bool)
    ensures Renders(Flat(t), ended, Render(t, ended, full), EndedAfter(t, ended), full)
    decreases |t|
  {
    if t != [] {
      hide Separator, Piece, EndsValue;
      var rest, e := t[..|t| - 1], t[|t| - 1];
      var mid := EndedAfter(rest, ended);
      assert t == rest + [e];
      RenderFlat(rest, ended, full);
      RendersOne(e, mid, full);
      RenderConcat(rest, [e], ended, full);
      RendersFlat1(e, mid, full);
      RendersMore(Flat(rest), Flat1(e), ended, Render(rest, ended, full), mid, Render([e], mid, full), EndedAfter([e], mid), full);
    }
  }

  lemma RendersFlat1(e: Event, ended: bool, full: bool)
    ensures Renders(Flat1(e), ended, Render([e], ended, full), EndedAfter([e], ended), full)
  {
    RendersOne(e, ended, full);
    if e.Chunk? {
      RendersChunks(e.kind, e.data, ended, full);
    }
  }

  // ----- The walk over a tree -----

  lemma RendersText(kind: Kind, data: bytes, ended: bool, full: bool)
    ensures var shown := if kind == OfNumber || full then data else [];
            Renders(TextEvents(kind, data), ended,
                    Separator(Begin(kind), ended) + Piece(Begin(kind), full) + shown + Piece(Finish(kind), full), kind != OfKey, full)
  {
    hide Renders, Separator, Piece;
    var shown := if kind == OfNumber || full then data else [];
    RendersOne(Begin(kind), ended, full);
    RendersChunks(kind, data, false, full);
    RendersOne(Finish(kind), false, full);
    var first := Separator(Begin(kind), ended) + Piece(Begin(kind), full);
    RendersMore([Begin(kind)], Explode(kind, data), ended, first, false, shown, false, full);
    RendersMore([Begin(kind)] + Explode(kind, data), [Finish(kind)], ended, first + shown, false,
                Separator(Finish(kind), false) + Piece(Finish(kind), full), kind != OfKey, full);
    NoSeparator(Finish(kind), false);
  }

  lemma NoSeparator(e: Event, ended: bool)
    requires !ended || !Starts(e)
    ensures Separator(e, ended) == [] && forall b: bytes :: Separator(e, ended) + b == b
  {
  }

  /** A comma where a value has ended. */
  function Comma(ended: bool): bytes {
    if ended then Ascii(",") else []
  }

  lemma CommaByte(first: bool, full: bool)
    ensures CommaText(first) == Comma(!first) && Shows(CommaText(first), Comma(!first), full)
  {
    assert Ascii(",") == [COMMA];
    ShowsPlain(CommaText(first), full);
  }

  /** Read from outside any string, the text of a value is shown as its walk is
      written, after a comma where a value has ended. */
  ghost predicate NodeAlike(n: Node, ended: bool, full: bool) {
    exists r :: Shows(NodeText(n), r, full) && Renders(Walk(n), ended, Comma(ended) + r, true, full)
  }

  ghost predicate BodyAlike(isObject: bool, b: Body, first: bool, full: bool) {
    exists r :: Shows(BodyText(isObject, b, first), r, full)
                && Renders(WalkBody(b) + [CloseEvent(isObject)], !first, r, true, full)
  }

  lemma WordPiece(w: Word, full: bool)
    ensures Piece(WordEvent(w), full) == WordText(w)
  {
    match w
    case True => assert Ascii("true") == WordText(True);
    case False => assert Ascii("false") == WordText(False);
    case Null => assert Ascii("null") == WordText(Null);
  }

  lemma WordAlike(w: Word, ended: bool, full: bool)
    ensures NodeAlike(Literal(w), ended, full)
  {
    hide Shows, Renders, Ascii;
    RendersOne(WordEvent(w), ended, full);
    ShowsPlain(WordText(w), full);
    WordPiece(w, full);
    assert Separator(WordEvent(w), ended) + Piece(WordEvent(w), full) == Comma(ended) + WordText(w);
    assert Shows(NodeText(Literal(w)), WordText(w), full);
  }

  lemma NumberAlike(token: bytes, ended: bool, full: bool)
    requires IsNumber(token)
    ensures NodeAlike(Num(token), ended, full)
  {
    hide IsNumber, Shows, Renders;
    NumberBytes(token);
    ShowsPlain(token, full);
    RendersText(OfNumber, token, ended, full);
    assert Separator(Begin(OfNumber), ended) + [] + token + [] == Comma(ended) + token;
    assert Shows(NodeText(Num(token)), token, full);
  }

  lemma QuotePieces(ended: bool, full: bool)
    ensures Piece(Begin(OfString), full) == Piece(Finish(OfString), full) == Piece(Begin(OfKey), full) == [QUOTE]
    ensures Piece(Finish(OfKey), full) == [QUOTE, COLON]
    ensures Separator(Begin(OfString), ended) == Separator(Begin(OfKey), ended) == Comma(ended)
  {
    assert Ascii("\"") == [QUOTE] && Ascii("\":") == [QUOTE, COLON];
  }

  lemma StringAlike(c: Chars, ended: bool, full: bool)
    requires CharsWellFormed(c) && (full ==> NoEscape(StringText(c)))
    ensures NodeAlike(Str(c), ended, full)
  {
    hide StringText, Shows, Renders, Decode, CharsWellFormed, NoEscape, Piece, Separator, Comma;
    ShowsString(c, full);
    RendersText(OfString, Decode(c), ended, full);
    QuotePieces(ended, full);
    var x, r := Content(c, full), [QUOTE] + Content(c, full) + [QUOTE];
    assert Comma(ended) + [QUOTE] + x + [QUOTE] == Comma(ended) + r;
    assert Shows(NodeText(Str(c)), r, full);
  }

  lemma {:induction false} NodeIsAlike(n: Node, ended: bool, full: bool)
    requires NodeWellFormed(n) && (full ==> NoEscape(NodeText(n)))
    ensures NodeAlike(n, ended, full)
    decreases n
  {
    hide NodeAlike, StringText, IsNumber, CharsWellFormed, BodyWellFormed, BodyText, BodyAlike;
    match n
    case Literal(w) => WordAlike(w, ended, full);
    case Num(token) => NumberAlike(token, ended, full);
    case Str(c) => StringAlike(c, ended, full);
    case Box(isObject, b) =>
      var t := BodyText(isObject, b, true);
      assert forall i :: 0 <= i < |t| ==> NodeText(n)[1 + i] == t[i];
      BodyIsAlike(isObject, b, true, full);
      BoxAlike(isObject, b, ended, full);
  }

  lemma BoxAlike(isObject: bool, b: Body, ended: bool, full: bool)
    requires BodyAlike(isObject, b, true, full)
    ensures NodeAlike(Box(isObject, b), ended, full)
  {
    hide Shows, Renders, BodyText, WalkBody;
    var n, t, open := Box(isObject, b), BodyText(isObject, b, true), [Opener(isObject)];
    var r :| Shows(t, r, full) && Renders(WalkBody(b) + [CloseEvent(isObject)], false, r, true, full);
    ShowsPlain(open, full);
    ShowsConcat(open, open, t, r, full);
    RendersOne(OpenEvent(isObject), ended, full);
    assert Ascii("{") == [123] && Ascii("[") == [91];
    var x := Separator(OpenEvent(isObject), ended) + Piece(OpenEvent(isObject), full);
    RendersMore([OpenEvent(isObject)], WalkBody(b) + [CloseEvent(isObject)], ended, x, false, r, true, full);
    assert [OpenEvent(isObject)] + (WalkBody(b) + [CloseEvent(isObject)]) == Walk(n);
    assert x + r == Comma(ended) + (open + r);
    assert Shows(NodeText(n), open + r, full);
  }

  lemma {:induction false} BodyIsAlike(isObject: bool, b: Body, first: bool, full: bool)
    requires BodyWellFormed(isObject, b, first) && (full ==> NoEscape(BodyText(isObject, b, first)))
    ensures BodyAlike(isObject, b, first, full)
    decreases b
  {
    hide BodyAlike, NodeAlike, KeyWellFormed, KeyText, NodeText, NodeWellFormed;
    if b.End? {
      EndAlike(isObject, b.before, first, full);
    } else {
      EntryParts(isObject, b, first, full);
      NodeIsAlike(b.value, !first && !isObject, full);
      BodyIsAlike(isObject, b.rest, false, full);
      EntryAlike(isObject, b, first, full);
    }
  }

  lemma EndAlike(isObject: bool, before: bytes, first: bool, full: bool)
    requires AllSpace(before)
    ensures BodyAlike(isObject, End(before), first, full)
  {
    hide Shows, Renders;
    var r := [Closer(isObject)];
    ShowsPlain(r, full);
    ShowsAfterSpace(before, r, r, full);
    RendersOne(CloseEvent(isObject), !first, full);
    NoSeparator(CloseEvent(isObject), !first);
    assert Ascii("}") == [125] && Ascii("]") == [93];
    assert WalkBody(End(before)) + [CloseEvent(isObject)] == [CloseEvent(isObject)];
    assert Shows(BodyText(isObject, End(before), first), r, full);
  }

  /** No part of a text without escapes has any. */
  lemma NoEscapeParts(a: bytes, b: bytes)
    requires NoEscape(a + b)
    ensures NoEscape(a) && NoEscape(b)
  {
    assert forall i :: 0 <= i < |a| ==> (a + b)[i] == a[i];
    assert forall i :: 0 <= i < |b| ==> (a + b)[|a| + i] == b[i];
  }

  lemma EntryParts(isObject: bool, b: Body, first: bool, full: bool)
    requires b.Entry? && (full ==> NoEscape(BodyText(isObject, b, first)))
    ensures full ==> NoEscape(KeyText(b.key)) && NoEscape(NodeText(b.value)) && NoEscape(BodyText(isObject, b.rest, false))
  {
    hide NoEscape, KeyText, NodeText, CommaText;
    if full {
      var v, t := NodeText(b.value), BodyText(isObject, b.rest, false);
      NoEscapeParts(b.before, CommaText(first) + (b.lead + (KeyText(b.key) + (b.gap + (v + t)))));
      NoEscapeParts(CommaText(first), b.lead + (KeyText(b.key) + (b.gap + (v + t))));
      NoEscapeParts(b.lead, KeyText(b.key) + (b.gap + (v + t)));
      NoEscapeParts(KeyText(b.key), b.gap + (v + t));
      NoEscapeParts(b.gap, v + t);
      NoEscapeParts(v, t);
    }
  }

  /** A key and its colon. */
  lemma KeyAlike(k: Key, ended: bool, full: bool)
    requires k.Key? && KeyWellFormed(true, k) && (full ==> NoEscape(KeyText(k)))
    ensures exists r :: Shows(KeyText(k), r, full) && Renders(KeyEvents(k), ended, Comma(ended) + r, false, full)
  {
    hide StringText, Shows, Renders, Decode, CharsWellFormed, NoEscape, Piece, Separator, Comma;
    var t := StringText(k.chars);
    if full {
      NoEscapeParts(t + k.colonGap, [COLON]);
      NoEscapeParts(t, k.colonGap);
    }
    ShowsString(k.chars, full);
    ShowsPlain([COLON], full);
    ShowsAfterSpace(k.colonGap, [COLON], [COLON], full);
    var r := [QUOTE] + Content(k.chars, full) + [QUOTE];
    ShowsConcat(t, r, k.colonGap + [COLON], [COLON], full);
    assert t + (k.colonGap + [COLON]) == KeyText(k);
    RendersText(OfKey, Decode(k.chars), ended, full);
    QuotePieces(ended, full);
    var x := Content(k.chars, full);
    assert Comma(ended) + [QUOTE] + x + [QUOTE, COLON] == Comma(ended) + (r + [COLON]);
    assert Shows(KeyText(k), r + [COLON], full);
  }

  /** A key, if there is one, and the value after it. */
  lemma KeyAndValue(isObject: bool, k: Key, n: Node, ended: bool, x: bytes, full: bool) returns (key: bytes)
    requires KeyWellFormed(isObject, k) && (full ==> NoEscape(KeyText(k)))
    requires Renders(Walk(n), ended && !isObject, Comma(ended && !isObject) + x, true, full)
    ensures Shows(KeyText(k), key, full) && Renders(KeyEvents(k) + Walk(n), ended, Comma(ended) + (key + x), true, full)
  {
    hide Shows, Renders, KeyText, Walk, KeyEvents, NoEscape;
    if isObject {
      KeyAlike(k, ended, full);
      key :| Shows(KeyText(k), key, full) && Renders(KeyEvents(k), ended, Comma(ended) + key, false, full);
      RendersMore(KeyEvents(k), Walk(n), ended, Comma(ended) + key, false, Comma(false) + x, true, full);
      assert Comma(ended) + key + (Comma(false) + x) == Comma(ended) + (key + x);
    } else {
      key := [];
      NoKeyShows(full);
      NoKeyEvents();
      assert [] + Walk(n) == Walk(n) && [] + x == x;
    }
  }

  lemma EntryAlike(isObject: bool, b: Body, first: bool, full: bool)
    requires b.Entry? && BodyWellFormed(isObject, b, first) && (full ==> NoEscape(KeyText(b.key)))
    requires NodeAlike(b.value, !first && !isObject, full) && BodyAlike(isObject, b.rest, false, full)
    ensures BodyAlike(isObject, b, first, full)
  {
    hide Shows, Renders, KeyText, NodeText, Walk, WalkBody, KeyEvents, BodyText, NoEscape, CommaText, Comma, KeyWellFormed, NodeWellFormed;
    assert AllSpace(b.before) && AllSpace(b.lead) && AllSpace(b.gap);
    var v, t, close := NodeText(b.value), BodyText(isObject, b.rest, false), [CloseEvent(isObject)];
    var x :| Shows(v, x, full) && Renders(Walk(b.value), !first && !isObject, Comma(!first && !isObject) + x, true, full);
    var y :| Shows(t, y, full) && Renders(WalkBody(b.rest) + close, true, y, true, full);
    ShowsConcat(v, x, t, y, full);
    ShowsAfterSpace(b.gap, v + t, x + y, full);
    var k := KeyAndValue(isObject, b.key, b.value, !first, x, full);
    var head := Comma(!first) + (k + x);
    RendersMore(KeyEvents(b.key) + Walk(b.value), WalkBody(b.rest) + close, !first, head, true, y, true, full);
    ShowsEntry(isObject, b, first, k, x + y, full);
    assert head + y == Comma(!first) + (k + (x + y));
    assert KeyEvents(b.key) + Walk(b.value) + (WalkBody(b.rest) + close) == WalkBody(b) + close by { EntryWalk(b); }
    assert Shows(BodyText(isObject, b, first), head + y, full);
  }

  lemma NoKeyEvents()
    ensures KeyEvents(NoKey) == [] && KeyText(NoKey) == []
  {
  }

  lemma EntryWalk(b: Body)
    requires b.Entry?
    ensures WalkBody(b) == KeyEvents(b.key) + Walk(b.value) + WalkBody(b.rest)
  {
  }

  lemma NoKeyShows(full: bool)
    ensures Shows([], [], full)
  {
  }

  lemma ShowsEntry(isObject: bool, b: Body, first: bool, k: bytes, xy: bytes, full: bool)
    requires b.Entry? && AllSpace(b.before) && AllSpace(b.lead) && Shows(KeyText(b.key), k, full)
    requires Shows(b.gap + (NodeText(b.value) + BodyText(isObject, b.rest, false)), xy, full)
    ensures Shows(BodyText(isObject, b, first), Comma(!first) + (k + xy), full)
  {
    hide Shows, KeyText, NodeText, CommaText, Comma;
    var after := b.gap + (NodeText(b.value) + BodyText(isObject, b.rest, false));
    ShowsConcat(KeyText(b.key), k, after, xy, full);
    ShowsAfterSpace(b.lead, KeyText(b.key) + after, k + xy, full);
    CommaByte(first, full);
    ShowsConcat(CommaText(first), Comma(!first), b.lead + (KeyText(b.key) + after), k + xy, full);
    ShowsAfterSpace(b.before, CommaText(first) + (b.lead + (KeyText(b.key) + after)), Comma(!first) + (k + xy), full);
  }

  // ----- Whole texts -----

  /** The events of an accepted visit, written back, are the text without whitespace
      and without what its strings contain; and the whole text without whitespace,
      byte for byte, where nothing is escaped. */
  lemma VisitedEventsSpellTheText(text: bytes, rules: Rules, events: seq<Event>, full: bool)
    requires Answered(text, rules, Ok, events) && (full ==> NoEscape(text))
    ensures Render(events, false, full) == Shown(text, Outside, full)
    ensures full ==> Render(events, false, true) == Strip(text, Outside)
  {
    hide NodeText, Walk, Flat, Shown, Render, NoEscape, NodeWithin, ScanDocument, NodeWellFormed, Strip;
    var doc :| DocumentAccepted(text, rules, doc);
    var n := doc.value;
    if full {
      NoEscapeParts(doc.lead, NodeText(n) + doc.trail);
      NoEscapeParts(NodeText(n), doc.trail);
    }
    NodeIsAlike(n, false, full);
    var r :| Shows(NodeText(n), r, full) && Renders(Walk(n), false, Comma(false) + r, true, full);
    ShowsSpace(doc.trail, full);
    ShowsConcat(NodeText(n), r, doc.trail, [], full);
    ShowsAfterSpace(doc.lead, NodeText(n) + doc.trail, r + [], full);
    RenderFlat(events, false, full);
    assert Comma(false) + r == r + [];
    if full {
      ShownIsStripped(text, Outside);
    }
  }
}
