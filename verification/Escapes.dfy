/** What string escapes stand for, said with tables of digits and of RFC 8259,
    section 7, and of code points: an independent description of the decoded
    bytes that the visitor reports. */
module Escapes {
  import opened Bytes
  import opened Grammar
  import opened Scanner
  import opened StringProofs
  import opened GrammarProofs
  import opened Trace
  import opened Visitors

  const LOWER_DIGITS: string := "0123456789abcdef"
  const UPPER_DIGITS: string := "0123456789ABCDEF"

  /** The byte is one of the two characters for a hex digit. */
  ghost predicate SpellsDigit(b: byte, d: int) {
    0 <= d < 16 && (b == LOWER_DIGITS[d] as int || b == UPPER_DIGITS[d] as int)
  }

  /** Four characters spell a number in base sixteen, in either case. */
  ghost predicate SpellsHex(h: bytes, n: int) {
    && |h| == 4 && SpellsDigit(h[0], n / 4096) && SpellsDigit(h[1], n / 256 % 16)
    && SpellsDigit(h[2], n / 16 % 16) && SpellsDigit(h[3], n % 16)
  }

  /** The letter of a short escape and the byte it stands for. */
  ghost predicate ShortEscapeOf(letter: byte, b: byte) {
    || (letter == '\"' as int && b == 34) || (letter == '\\' as int && b == 92) || (letter == '/' as int && b == 47)
    || (letter == 'b' as int && b == 8) || (letter == 'f' as int && b == 12) || (letter == 'n' as int && b == 10)
    || (letter == 'r' as int && b == 13) || (letter == 't' as int && b == 9)
  }

  /** The shortest UTF-8 form of a code point (RFC 3629, section 3). */
  ghost predicate IsUtf8(r: bytes, v: int) {
    && 1 <= |r| <= 4 && CodePoint(r) == v && (forall i :: 1 <= i < |r| ==> 0x80 <= r[i] < 0xC0)
    && (|r| == 1 ==> 0 <= v < 0x80) && (|r| == 2 ==> 0x80 <= v < 0x800)
    && (|r| == 3 ==> 0x800 <= v < 0x10000) && (|r| == 4 ==> 0x10000 <= v < 0x110000)
  }

  lemma DigitIsSpelled(b: byte, d: int)
    requires SpellsDigit(b, d)
    ensures IsHex(b) && HexDigit(b) == d
  {
  }

  lemma DigitSpells(b: byte)
    requires IsHex(b)
    ensures SpellsDigit(b, HexDigit(b))
  {
  }

  lemma OneDigit(n: int, rest: int, d: int)
    requires 0 <= d < 16
    ensures n == rest * 16 + d <==> n / 16 == rest && n % 16 == d
  {
  }

  /** The digits of a number, most significant first. */
  lemma FourDigits(a: int, b: int, c: int, d: int, n: int)
    requires 0 <= a < 16 && 0 <= b < 16 && 0 <= c < 16 && 0 <= d < 16
    ensures n == ((a * 16 + b) * 16 + c) * 16 + d <==> a == n / 4096 && b == n / 256 % 16 && c == n / 16 % 16 && d == n % 16
  {
    OneDigit(n, (a * 16 + b) * 16 + c, d);
    OneDigit(n / 16, a * 16 + b, c);
    OneDigit(n / 16 / 16, a, b);
    assert n / 256 == n / 16 / 16 && n / 4096 == n / 16 / 16 / 16;
  }

  lemma HexIsSpelled(h: bytes, n: int)
    ensures SpellsHex(h, n) <==> IsHex4(h) && HexValue(h) == n
  {
    hide SpellsDigit, IsHex;
    if SpellsHex(h, n) {
      DigitIsSpelled(h[0], n / 4096);
      DigitIsSpelled(h[1], n / 256 % 16);
      DigitIsSpelled(h[2], n / 16 % 16);
      DigitIsSpelled(h[3], n % 16);
      FourDigits(n / 4096, n / 256 % 16, n / 16 % 16, n % 16, n);
    }
    if IsHex4(h) && HexValue(h) == n {
      DigitSpells(h[0]);
      DigitSpells(h[1]);
      DigitSpells(h[2]);
      DigitSpells(h[3]);
      FourDigits(HexDigit(h[0]), HexDigit(h[1]), HexDigit(h[2]), HexDigit(h[3]), n);
    }
  }

  lemma Utf8Is(v: int)
    requires 0 <= v <= 0x10FFFF
    ensures IsUtf8(Utf8(v), v)
  {
    Utf8RoundTrip(v);
  }

  /** A code point has one form. */
  lemma OneForm(r: bytes, v: int)
    requires IsUtf8(r, v)
    ensures 0 <= v <= 0x10FFFF && r == Utf8(v)
  {
    if |r| == 2 {
      Split64(v, r[0] as int - 0xC0, Tail(r[1]));
    } else if |r| == 3 {
      var high := (r[0] as int - 0xE0) * 64 + Tail(r[1]);
      Split64(v, high, Tail(r[2]));
      Split64(high, r[0] as int - 0xE0, Tail(r[1]));
      SixBits(v);
    } else if |r| == 4 {
      var top := (r[0] as int - 0xF0) * 64 + Tail(r[1]);
      var high := top * 64 + Tail(r[2]);
      Split64(v, high, Tail(r[3]));
      Split64(high, top, Tail(r[2]));
      Split64(top, r[0] as int - 0xF0, Tail(r[1]));
      SixBits(v);
      SixBits(v / 64);
    }
  }

  lemma Split64(n: int, hi: int, lo: int)
    requires 0 <= lo < 64
    ensures n == hi * 64 + lo <==> n / 64 == hi && n % 64 == lo
  {
  }

  // ----- What a string stands for -----

  /** The number of a code point that two surrogates stand for, split between them. */
  ghost predicate SpellsPair(high: bytes, low: bytes, v: int) {
    && 0x10000 <= v <= 0x10FFFF
    && SpellsHex(high, 0xD800 + (v - 0x10000) / 0x400) && SpellsHex(low, 0xDC00 + (v - 0x10000) % 0x400)
  }

  /** Four digits spell a code point by themselves. */
  ghost predicate SpellsOne(h: bytes, v: int) {
    0 <= v < 0x10000 && !(0xD800 <= v < 0xE000) && SpellsHex(h, v)
  }

  /** The content of a string stands for these bytes: plain bytes for themselves,
      short escapes for the byte of their letter, and unicode escapes, alone or in a
      surrogate pair, for the UTF-8 form of the code point their digits spell. */
  ghost predicate StandsFor(c: Chars, out: bytes)
    decreases c
  {
    match c
    case Done => out == []
    case Char(Raw(b), rest) => out != [] && out[0] == b && StandsFor(rest, out[1..])
    case Char(Escape(letter), rest) => out != [] && ShortEscapeOf(letter, out[0]) && StandsFor(rest, out[1..])
    case Char(Unicode(h), rest) =>
      || (exists v, k: nat :: k <= |out| && SpellsOne(h, v) && IsUtf8(out[..k], v) && StandsFor(rest, out[k..]))
      || (rest.Char? && rest.item.Unicode?
          && exists v, k: nat ::
               k <= |out| && SpellsPair(h, rest.item.hex, v) && IsUtf8(out[..k], v) && StandsFor(rest.rest, out[k..]))
  }

  lemma OneIs(h: bytes, v: int)
    ensures SpellsOne(h, v) <==> IsHex4(h) && HexValue(h) == v && !IsHigh(Unicode(h)) && !IsLow(Unicode(h))
  {
    hide SpellsHex, HexValue;
    HexIsSpelled(h, v);
  }

  lemma PairIs(h: bytes, l: bytes, v: int)
    ensures SpellsPair(h, l, v) <==> IsHigh(Unicode(h)) && IsLow(Unicode(l)) && PairValue(HexValue(h), HexValue(l)) == v
  {
    hide SpellsHex, HexValue;
    HexIsSpelled(h, 0xD800 + (v - 0x10000) / 0x400);
    HexIsSpelled(l, 0xDC00 + (v - 0x10000) % 0x400);
  }

  lemma ShortIs(letter: byte, b: byte)
    ensures ShortEscapeOf(letter, b) <==> IsShortEscape(letter) && ShortEscapeByte(letter) == b
  {
  }

  lemma FrontAndRest(a: bytes, b: bytes)
    ensures (a + b)[..|a|] == a && (a + b)[|a|..] == b
  {
  }

  /** A well-formed string with paired surrogates stands for what it is decoded to. */
  lemma {:induction false} DecodedIsMeant(c: Chars)
    requires CharsWellFormed(c) && Paired(c)
    ensures StandsFor(c, Decode(c))
    decreases c
  {
    hide SpellsHex, IsUtf8, Utf8, HexValue, PairValue, ShortEscapeOf;
    match c
    case Done =>
    case Char(Raw(b), rest) =>
      DecodedIsMeant(rest);
      FrontAndRest([b], Decode(rest));
    case Char(Escape(letter), rest) =>
      DecodedIsMeant(rest);
      ShortIs(letter, ShortEscapeByte(letter));
      FrontAndRest([ShortEscapeByte(letter)], Decode(rest));
    case Char(Unicode(h), rest) =>
      if IsHigh(c.item) {
        DecodedIsMeant(rest.rest);
        var v := PairValue(HexValue(h), HexValue(rest.item.hex));
        PairIs(h, rest.item.hex, v);
        Utf8Is(v);
        FrontAndRest(Utf8(v), Decode(rest.rest));
      } else {
        DecodedIsMeant(rest);
        OneIs(h, HexValue(h));
        Utf8Is(HexValue(h));
        FrontAndRest(Utf8(HexValue(h)), Decode(rest));
      }
  }

  /** It stands for nothing else. */
  lemma {:induction false} MeaningIsDecoded(c: Chars, out: bytes)
    requires CharsWellFormed(c) && Paired(c) && StandsFor(c, out)
    ensures out == Decode(c)
    decreases c
  {
    hide SpellsHex, IsUtf8, Utf8, HexValue, PairValue, ShortEscapeOf;
    match c
    case Done =>
    case Char(Raw(b), rest) =>
      MeaningIsDecoded(rest, out[1..]);
    case Char(Escape(letter), rest) =>
      MeaningIsDecoded(rest, out[1..]);
      ShortIs(letter, out[0]);
    case Char(Unicode(h), rest) =>
      UnicodeIsDecoded(c, out);
  }

  lemma {:induction false} UnicodeIsDecoded(c: Chars, out: bytes)
    requires CharsWellFormed(c) && Paired(c) && StandsFor(c, out) && c.Char? && c.item.Unicode?
    ensures out == Decode(c)
    decreases c, 1
  {
    hide SpellsOne, SpellsPair, IsUtf8, Decode, Paired, CharsWellFormed;
    if v, k: nat :| k <= |out| && SpellsOne(c.item.hex, v) && IsUtf8(out[..k], v) && StandsFor(c.rest, out[k..]) {
      AloneIsDecoded(c, out, v, k);
    } else {
      var v, k: nat :| k <= |out| && SpellsPair(c.item.hex, c.rest.item.hex, v) && IsUtf8(out[..k], v) && StandsFor(c.rest.rest, out[k..]);
      PairIsDecoded(c, out, v, k);
    }
  }

  lemma {:induction false} AloneIsDecoded(c: Chars, out: bytes, v: int, k: nat)
    requires CharsWellFormed(c) && Paired(c) && c.Char? && c.item.Unicode? && k <= |out|
    requires SpellsOne(c.item.hex, v) && IsUtf8(out[..k], v) && StandsFor(c.rest, out[k..])
    ensures out == Decode(c)
    decreases c, 0
  {
    hide StandsFor, SpellsOne, IsUtf8, Utf8, HexValue, PairValue;
    OneIs(c.item.hex, v);
    OneForm(out[..k], v);
    MeaningIsDecoded(c.rest, out[k..]);
    assert out == out[..k] + out[k..];
  }

  lemma {:induction false} PairIsDecoded(c: Chars, out: bytes, v: int, k: nat)
    requires CharsWellFormed(c) && Paired(c) && c.Char? && c.item.Unicode? && c.rest.Char? && c.rest.item.Unicode? && k <= |out|
    requires SpellsPair(c.item.hex, c.rest.item.hex, v) && IsUtf8(out[..k], v) && StandsFor(c.rest.rest, out[k..])
    ensures out == Decode(c)
    decreases c, 0
  {
    hide StandsFor, SpellsPair, IsUtf8, Utf8, HexValue, PairValue;
    PairIs(c.item.hex, c.rest.item.hex, v);
    OneForm(out[..k], v);
    MeaningIsDecoded(c.rest.rest, out[k..]);
    assert out == out[..k] + out[k..];
  }

  // ----- What a visit reports -----

  /** The bytes of all chunks, joined. */
  ghost function ChunkBytes(t: seq<Event>): bytes {
    if t == [] then [] else ChunkBytes(t[..|t| - 1]) + (if t[|t| - 1].Chunk? then t[|t| - 1].data else [])
  }

  lemma ChunkBytesMore(t: seq<Event>, e: Event)
    ensures ChunkBytes(t + [e]) == ChunkBytes(t) + (if e.Chunk? then e.data else [])
  {
    assert (t + [e])[..|t|] == t;
  }

  lemma ExplodeLast(kind: Kind, data: bytes)
    requires data != []
    ensures Explode(kind, data) == Explode(kind, data[..|data| - 1]) + [Chunk(kind, [data[|data| - 1]])]
  {
  }

  lemma {:induction false} ChunkBytesExplode(t: seq<Event>, kind: Kind, data: bytes)
    ensures ChunkBytes(t + Explode(kind, data)) == ChunkBytes(t) + data
    decreases |data|
  {
    hide ChunkBytes;
    if data == [] {
      assert t + Explode(kind, data) == t;
    } else {
      var n := |data| - 1;
      ChunkBytesExplode(t, kind, data[..n]);
      ExplodeLast(kind, data);
      hide Explode;
      var x, last := t + Explode(kind, data[..n]), Chunk(kind, [data[n]]);
      ChunkBytesMore(x, last);
      assert t + (Explode(kind, data[..n]) + [last]) == x + [last];
      assert data == data[..n] + [data[n]];
    }
  }

  /** Cutting chunks into single bytes keeps their bytes. */
  lemma {:induction false} ChunkBytesFlat(t: seq<Event>)
    ensures ChunkBytes(Flat(t)) == ChunkBytes(t)
  {
    if t != [] {
      var rest, e := t[..|t| - 1], t[|t| - 1];
      ChunkBytesFlat(rest);
      if e.Chunk? {
        ChunkBytesExplode(Flat(rest), e.kind, e.data);
      } else {
        ChunkBytesMore(Flat(rest), e);
      }
    }
  }

  lemma TextChunkBytes(kind: Kind, data: bytes)
    ensures ChunkBytes(TextEvents(kind, data)) == data
  {
    var x := [Begin(kind)] + Explode(kind, data);
    ChunkBytesMore(x, Finish(kind));
    ChunkBytesExplode([Begin(kind)], kind, data);
    ChunkBytesMore([], Begin(kind));
    assert [] + [Begin(kind)] == [Begin(kind)];
    assert [] + data == data;
  }

  /** An accepted visit of a text that is one string reports what it stands for. */
  lemma VisitedString(c: Chars, rules: Rules, events: seq<Event>)
    requires CharsWellFormed(c) && rules.paired && Answered(StringText(c), rules, Ok, events)
    ensures Paired(c) && StandsFor(c, ChunkBytes(events))
  {
    hide CharsText, ScanDocument, Decode, Flat, StandsFor;
    var text, doc := StringText(c), Document([], Str(c), []);
    assert [] + (text + []) == text;
    var d :| DocumentAccepted(text, rules, d);
    GrammarIsUnambiguous(d, doc);
    DecodedIsMeant(c);
    ChunkBytesFlat(events);
    TextChunkBytes(OfString, Decode(c));
  }

  lemma DoneText()
    ensures CharsText(Done) == [QUOTE]
  {
  }

  lemma UnicodeText(h: bytes, rest: Chars)
    ensures StringText(Char(Unicode(h), rest)) == [QUOTE, BACKSLASH, 117] + h + CharsText(rest)
    ensures CharsText(Char(Unicode(h), Done)) == [BACKSLASH, 117] + h + [QUOTE]
  {
  }

  lemma PairContent(high: bytes, low: bytes, v: int)
    requires SpellsPair(high, low, v)
    ensures var c := Char(Unicode(high), Char(Unicode(low), Done));
            CharsWellFormed(c) && Paired(c) && IsUtf8(Decode(c), v)
  {
    hide SpellsPair, IsUtf8, HexValue, PairValue, Utf8;
    PairIs(high, low, v);
    Utf8Is(v);
    var last := Char(Unicode(low), Done);
    assert ItemWellFormed(last.item) && ItemWellFormed(Unicode(high));
    assert CharsWellFormed(Done) && Paired(Done) && Decode(Done) == [];
    assert CharsWellFormed(last);
    assert Utf8(v) + [] == Utf8(v);
  }

  lemma OneContent(h: bytes, v: int)
    requires SpellsOne(h, v)
    ensures var c := Char(Unicode(h), Done);
            CharsWellFormed(c) && Paired(c) && IsUtf8(Decode(c), v)
  {
    hide SpellsOne, IsUtf8, HexValue, Utf8;
    OneIs(h, v);
    Utf8Is(v);
    assert CharsWellFormed(Done) && Paired(Done) && Decode(Done) == [];
    assert Utf8(v) + [] == Utf8(v);
  }

  /** A surrogate pair is reported as the code point that its digits spell. */
  lemma VisitedPair(v: int, high: bytes, low: bytes, rules: Rules, events: seq<Event>)
    requires SpellsPair(high, low, v) && rules.paired
    requires Answered([QUOTE, BACKSLASH, 117] + high + [BACKSLASH, 117] + low + [QUOTE], rules, Ok, events)
    ensures IsUtf8(ChunkBytes(events), v)
  {
    hide *;
    var last := Char(Unicode(low), Done);
    var c := Char(Unicode(high), last);
    PairContent(high, low, v);
    UnicodeText(high, last);
    UnicodeText(low, Done);
    assert [QUOTE, BACKSLASH, 117] + high + ([BACKSLASH, 117] + low + [QUOTE])
        == [QUOTE, BACKSLASH, 117] + high + [BACKSLASH, 117] + low + [QUOTE];
    VisitedString(c, rules, events);
    MeaningIsDecoded(c, ChunkBytes(events));
  }

  /** A unicode escape that is no surrogate is reported as the code point that its
      digits spell. */
  lemma VisitedUnicode(v: int, h: bytes, rules: Rules, events: seq<Event>)
    requires SpellsOne(h, v) && rules.paired
    requires Answered([QUOTE, BACKSLASH, 117] + h + [QUOTE], rules, Ok, events)
    ensures IsUtf8(ChunkBytes(events), v)
  {
    hide *;
    var c := Char(Unicode(h), Done);
    OneContent(h, v);
    UnicodeText(h, Done);
    assert [QUOTE, BACKSLASH, 117] + h + [QUOTE] == [QUOTE, BACKSLASH, 117] + h + CharsText(Done) by { DoneText(); }
    VisitedString(c, rules, events);
    MeaningIsDecoded(c, ChunkBytes(events));
  }

  /** A short escape is reported as the byte of its letter. */
  lemma VisitedShort(letter: byte, b: byte, rules: Rules, events: seq<Event>)
    requires ShortEscapeOf(letter, b) && rules.paired
    requires Answered([QUOTE, BACKSLASH, letter, QUOTE], rules, Ok, events)
    ensures ChunkBytes(events) == [b]
  {
    hide ScanDocument, Flat, StandsFor, Answered, ShortEscapeOf;
    ShortIs(letter, b);
    var c := Char(Escape(letter), Done);
    assert StringText(c) == [QUOTE, BACKSLASH, letter, QUOTE];
    VisitedString(c, rules, events);
    MeaningIsDecoded(c, ChunkBytes(events));
    assert Decode(c) == [b] + [];
  }
}
