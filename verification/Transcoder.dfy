/** The transcoder: reads one value and writes it in compact or pretty form. It
    pairs no surrogates, and limits only what its buffers and its indentation
    can hold. */
module Transcoders {
  import opened Bytes
  import opened Grammar
  import opened Scanner
  import opened StringProofs
  import opened GrammarProofs
  import opened Cursors
  import opened Steps
  import opened Rewriting
  import NumberCheck

  const SPACES_64: bytes := seq(64, _ => SPACE)

  /** Rules without pairing and without limits but the room for numbers. */
  ghost predicate Transcoding(rules: Rules) {
    !rules.paired && rules.limits == Limits(0, 0, NUMBER_ROOM, 0, 0)
  }

  // ----- Strings -----

  /** Reading on from `now` ends as reading from `all` does. */
  ghost predicate SameEnd(all: Out<Chars>, now: Out<Chars>) {
    if all.Bad? then now == all else now.Good? && now.next == all.next
  }

  /** A string opened before `start` and read up to `p` is written so far. `n` is
      a count the transcoder does not use. */
  ghost predicate InString(rules: Rules, s: bytes, start: nat, p: nat, n: nat, before: bytes, out: bytes) {
    && Transcoding(rules) && start <= p <= |s| && out == before + s[start..p]
    && SameEnd(ScanChars(s, start, 0, 0, rules), ScanChars(s, p, n, 0, rules))
  }

  lemma InStringStarts(rules: Rules, s: bytes, start: nat, before: bytes)
    requires Transcoding(rules) && start <= |s|
    ensures InString(rules, s, start, start, 0, before, before)
  {
    assert s[start..start] == [];
  }

  lemma InStringUnit(rules: Rules, s: bytes, start: nat, p: nat, n: nat, before: bytes, out: bytes, q: nat)
    requires InString(rules, s, start, p, n, before, out)
    requires ReadAt(s, p, 0) != Byte(QUOTE) && ScanUnit(s, p, rules).Good? && ScanUnit(s, p, rules).next == q
    ensures p < q <= |s|
    ensures InString(rules, s, start, q, n + |UnitBytes(ScanUnit(s, p, rules).value)|, before, out + s[p..q])
  {
    hide ScanUnit, ScanChars, UnitBytes, ReadAt;
    ScanCharsUnfold(s, p, n, 0, rules, ScanUnit(s, p, rules).value, q);
    assert s[start..q] == s[start..p] + s[p..q];
  }

  lemma InStringPlain(rules: Rules, s: bytes, start: nat, p: nat, n: nat, before: bytes, out: bytes)
    requires InString(rules, s, start, p, n, before, out) && p < |s| && IsPlain(s[p])
    ensures InString(rules, s, start, p + 1, n + 1, before, out + [s[p]])
  {
    hide ScanChars;
    assert ScanUnit(s, p, rules) == Good(One(Raw(s[p])), p + 1);
    InStringUnit(rules, s, start, p, n, before, out, p + 1);
    assert s[p..p + 1] == [s[p]];
  }

  lemma {:induction false} InStringRun(rules: Rules, s: bytes, start: nat, p: nat, n: nat, before: bytes, out: bytes, k: nat)
    requires InString(rules, s, start, p, n, before, out) && p + k <= |s| && (forall i :: p <= i < p + k ==> IsPlain(s[i]))
    ensures InString(rules, s, start, p + k, n + k, before, out + s[p..p + k])
    decreases k
  {
    hide InString, IsPlain;
    if k == 0 {
      assert out + s[p..p] == out;
    } else {
      InStringPlain(rules, s, start, p, n, before, out);
      InStringRun(rules, s, start, p + 1, n + 1, before, out + [s[p]], k - 1);
      assert out + [s[p]] + s[p + 1..p + k] == out + s[p..p + k];
    }
  }

  lemma InStringSpan(rules: Rules, s: bytes, start: nat, p: nat, n: nat, before: bytes, out: bytes, span: bytes, k: nat)
    requires InString(rules, s, start, p, n, before, out) && k <= |span| && (forall i :: 0 <= i < k ==> IsPlain(span[i]))
    requires p + |span| <= |s| && span == s[p..p + |span|]
    ensures InString(rules, s, start, p + k, n + k, before, out + span[..k])
  {
    hide InString;
    forall i | p <= i < p + k ensures IsPlain(s[i]) {
      assert span[i - p] == s[i];
    }
    InStringRun(rules, s, start, p, n, before, out, k);
    assert span[..k] == s[p..p + k];
  }

  lemma InStringBad(rules: Rules, s: bytes, start: nat, p: nat, n: nat, before: bytes, out: bytes)
    requires InString(rules, s, start, p, n, before, out) && ScanChars(s, p, n, 0, rules).Bad?
    ensures ScanChars(s, start, 0, 0, rules) == ScanChars(s, p, n, 0, rules)
  {
  }

  /** At the closing quote the text of the whole string is written. */
  lemma InStringEnds(rules: Rules, s: bytes, start: nat, p: nat, n: nat, before: bytes, out: bytes)
    requires InString(rules, s, start, p, n, before, out) && ReadAt(s, p, 0) == Byte(QUOTE)
    ensures var r := ScanChars(s, start, 0, 0, rules);
            r.Good? && r.next == p + 1 && out + [QUOTE] == before + CharsText(r.value)
  {
    hide ScanChars, CharsText, CharsWellFormed, Paired;
    var r := ScanChars(s, start, 0, 0, rules);
    ByteDecides(s, p, n, 0, rules);
    CharsSound(s, start, 0, 0, rules, r.value, r.next);
    assert s[start..p + 1] == CharsText(r.value);
    assert s[start..p + 1] == s[start..p] + [QUOTE];
    assert before + s[start..p] + [QUOTE] == before + (s[start..p] + [QUOTE]);
  }

  lemma HexCopied(s: bytes, start: nat, done: bytes)
    requires start <= |s| && HexProgress(ScanHex(s, start, 4, 0), ScanHex(s, start + 4, 0, 0), done)
    ensures ScanHex(s, start, 4, 0).Good? && ScanHex(s, start, 4, 0).next == start + 4 <= |s| && s[start..start + 4] == done
  {
    hide ScanHex, HexProgress;
    HexEnds(s, start + 4, 0, ScanHex(s, start, 4, 0), done);
    HexSound(s, start, 4, 0);
  }

  lemma FirstOfSlice(s: bytes, p: nat, q: nat)
    requires p < q <= |s|
    ensures s[p..q] == [s[p]] + s[p + 1..q]
  {
  }

  // ----- Entries -----

  /** The text of a body in its new layout. */
  ghost function BodyOutput(b: Body, isObject: bool, first: bool, pretty: bool, depth: nat): bytes {
    BodyText(isObject, RelayoutBody(b, isObject, first, pretty, depth), first)
  }

  ghost function EntryOutput(isObject: bool, first: bool, key: Key, value: Node, pretty: bool, depth: nat): bytes {
    CommaText(first) + Indent(pretty, depth + 1)
      + (KeyText(RelayoutKey(key)) + (if isObject then KeyGap(pretty) else []))
      + OutputText(value, pretty, depth + 1)
  }

  lemma BodyOutputEntry(e: Body, isObject: bool, first: bool, pretty: bool, depth: nat)
    requires e.Entry? && (e.key.Key? <==> isObject)
    ensures BodyOutput(e, isObject, first, pretty, depth) ==
            EntryOutput(isObject, first, e.key, e.value, pretty, depth) + BodyOutput(e.rest, isObject, false, pretty, depth)
  {
    hide KeyText, NodeText, Relayout, Indent, KeyGap, RelayoutKey;
    var k, v := KeyText(RelayoutKey(e.key)), NodeText(Relayout(e.value, pretty, depth + 1));
    var i, g, r := Indent(pretty, depth + 1), KeyGap(pretty), BodyOutput(e.rest, isObject, false, pretty, depth);
    assert isObject ==> i + ([] + ([] + (k + (g + (v + r))))) == [] + i + (k + g) + v + r;
    assert isObject ==> [] + ([COMMA] + (i + (k + (g + (v + r))))) == [COMMA] + i + (k + g) + v + r;
    if !isObject {
      assert k == [] by { NoKeyText(e.key); }
      assert i + ([] + ([] + (k + ([] + (v + r))))) == [] + i + (k + []) + v + r;
      assert [] + ([COMMA] + ([] + (k + (i + (v + r))))) == [COMMA] + i + (k + []) + v + r;
    }
  }

  lemma NoKeyText(k: Key)
    requires k.NoKey?
    ensures KeyText(RelayoutKey(k)) == []
  {
  }

  lemma BodyOutputEnd(before: bytes, isObject: bool, first: bool, pretty: bool, depth: nat)
    ensures BodyOutput(End(before), isObject, first, pretty, depth) ==
            (if first then [] else Indent(pretty, depth)) + [Closer(isObject)]
  {
    hide Indent;
  }

  /** The answer for a value was written, or refused as the scanner says. */
  ghost predicate Written(r: Out<Node>, pretty: bool, depth: nat, status: Status, pos: int, before: bytes, after: bytes) {
    if r.Bad? then status == r.status
    else status == Ok && pos == r.next && after == before + OutputText(r.value, pretty, depth)
  }

  /** Inside a container opened before `start` and read up to `p`. */
  ghost predicate InBox(rules: Rules, s: bytes, start: nat, p: nat, isObject: bool, first: bool, d: nat, pretty: bool, depth: nat,
                        before: bytes, out: bytes) {
    var all, now := ScanBody(s, start, isObject, true, d, rules), ScanBody(s, p, isObject, first, d, rules);
    if all.Bad? then now == all
    else
      && now.Good? && now.next == all.next
      && before + [Opener(isObject)] + BodyOutput(all.value, isObject, true, pretty, depth)
         == out + BodyOutput(now.value, isObject, first, pretty, depth)
  }

  lemma InBoxStarts(rules: Rules, s: bytes, start: nat, isObject: bool, d: nat, pretty: bool, depth: nat, before: bytes)
    ensures InBox(rules, s, start, start, isObject, true, d, pretty, depth, before, before + [Opener(isObject)])
  {
    hide ScanBody;
  }

  lemma InBoxFails(rules: Rules, s: bytes, start: nat, p: nat, isObject: bool, first: bool, d: nat, pretty: bool, depth: nat,
                   before: bytes, out: bytes, st: Status, pos: int, after: bytes)
    requires Transcoding(rules) && InBox(rules, s, start, p, isObject, first, d, pretty, depth, before, out)
    requires ScanBody(s, p, isObject, first, d, rules).Bad? && ScanBody(s, p, isObject, first, d, rules).status == st
    ensures Written(BoxAnswer(s, start, isObject, d, rules), pretty, depth, st, pos, before, after)
  {
    hide ScanBody, BodyOutput, OutputText;
  }

  lemma BoxOutput(isObject: bool, b: Body, pretty: bool, depth: nat)
    ensures OutputText(Box(isObject, b), pretty, depth) == [Opener(isObject)] + BodyOutput(b, isObject, true, pretty, depth)
  {
  }

  lemma InBoxEnds(rules: Rules, s: bytes, start: nat, p: nat, isObject: bool, first: bool, d: nat, pretty: bool, depth: nat,
                  before: bytes, out: bytes, pos: nat, after: bytes)
    requires Transcoding(rules) && InBox(rules, s, start, p, isObject, first, d, pretty, depth, before, out)
    requires var r := ScanBody(s, p, isObject, first, d, rules); r.Good? && r.value.End? && r.next == pos
    requires after == out + (if first then [] else Indent(pretty, depth)) + [Closer(isObject)]
    ensures Written(BoxAnswer(s, start, isObject, d, rules), pretty, depth, Ok, pos, before, after)
  {
    hide ScanBody, BodyOutput, OutputText, Indent;
    var all, now := ScanBody(s, start, isObject, true, d, rules), ScanBody(s, p, isObject, first, d, rules);
    BoxOutput(isObject, all.value, pretty, depth);
    BodyOutputEnd(now.value.before, isObject, first, pretty, depth);
    var i := if first then [] else Indent(pretty, depth);
    assert out + (i + [Closer(isObject)]) == out + i + [Closer(isObject)];
    var b := BodyOutput(all.value, isObject, true, pretty, depth);
    assert before + ([Opener(isObject)] + b) == before + [Opener(isObject)] + b;
  }

  lemma InBoxEntry(rules: Rules, s: bytes, start: nat, p: nat, isObject: bool, first: bool, d: nat, pretty: bool, depth: nat,
                   before: bytes, out: bytes, q: nat, k: (bytes, Key), x: nat, n: Node, y: nat, after: bytes)
    requires InBox(rules, s, start, p, isObject, first, d, pretty, depth, before, out)
    requires p <= q < |s| && ScanBody(s, p, isObject, first, d, rules) == ScanEntry(s, p, q, isObject, first, d, rules)
    requires ScanKey(s, if first then q else q + 1, isObject, rules) == Good(k, x)
    requires ScanValue(s, x, d + 1, rules) == Good(n, y)
    requires after == out + EntryOutput(isObject, first, k.1, n, pretty, depth)
    ensures InBox(rules, s, start, y, isObject, false, d, pretty, depth, before, after)
  {
    hide ScanBody, ScanEntry, ScanValue, ScanKey, BodyOutput, EntryOutput;
    EntryThenRest(s, p, q, isObject, first, d, rules, k, x, n, y);
    var rest := ScanBody(s, y, isObject, false, d, rules);
    var now := ScanEntry(s, p, q, isObject, first, d, rules);
    if rest.Good? {
      KeyKind(rules, s, if first then q else q + 1, isObject);
      BodyOutputEntry(now.value, isObject, first, pretty, depth);
      var e, r := EntryOutput(isObject, first, k.1, n, pretty, depth), BodyOutput(rest.value, isObject, false, pretty, depth);
      assert out + (e + r) == out + e + r;
    }
  }

  lemma KeyKind(rules: Rules, s: bytes, p: nat, isObject: bool)
    ensures var r := ScanKey(s, p, isObject, rules); r.Good? ==> (r.value.1.Key? <==> isObject)
  {
    hide ScanChars, SkipSpace;
  }

  /** There is room for an entry exactly when its break can be written. */
  lemma RoomToIndent(base: nat, d: nat)
    ensures HasRoom(TranscodeRules(true, base), d) <==> base + d + 1 <= SIZE_MAX / 2
  {
  }

  lemma AlwaysRoom(base: nat, d: nat)
    ensures HasRoom(TranscodeRules(false, base), d)
  {
  }

  lemma NoKeyOutput(rules: Rules, s: bytes, p: nat, out: bytes)
    ensures ScanKey(s, p, false, rules) == Good(([], NoKey), p)
    ensures out == out + KeyText(RelayoutKey(NoKey))
  {
  }

  lemma KeyWritten(c: Chars, key: Key, pretty: bool, a: bytes, z: bytes)
    requires key.Key? && key.chars == c && z == a + StringText(c) + (if pretty then [COLON, SPACE] else [COLON])
    ensures z == a + (KeyText(RelayoutKey(key)) + KeyGap(pretty))
  {
    hide StringText;
    var t := StringText(c);
    assert t + [] + [COLON] + KeyGap(pretty) == t + (if pretty then [COLON, SPACE] else [COLON]);
  }

  lemma StringOutput(r: Out<Chars>, pretty: bool, depth: nat)
    ensures r.Good? ==> OutputText(Str(r.value), pretty, depth) == StringText(r.value) && NodeFits(Str(r.value), depth)
  {
  }

  lemma EntryWritten(isObject: bool, first: bool, key: Key, value: Node, pretty: bool, depth: nat,
                     a: bytes, entered: bytes, keyed: bytes, z: bytes)
    requires entered == a + (CommaText(first) + Indent(pretty, depth + 1))
    requires keyed == if isObject then entered + (KeyText(RelayoutKey(key)) + KeyGap(pretty)) else entered + KeyText(RelayoutKey(key))
    requires z == keyed + OutputText(value, pretty, depth + 1)
    ensures z == a + EntryOutput(isObject, first, key, value, pretty, depth)
  {
    hide CommaText, Indent, KeyText, RelayoutKey, KeyGap, OutputText;
    var c, k, v := CommaText(first) + Indent(pretty, depth + 1), KeyText(RelayoutKey(key)), OutputText(value, pretty, depth + 1);
    var g := if isObject then KeyGap(pretty) else [];
    assert k + [] == k;
    assert a + c + (k + g) + v == a + (c + (k + g) + v);
  }

  // ----- The number buffer -----

  ghost function Pow2(k: nat): (r: nat)
    ensures 0 < r
  {
    if k == 0 then 1 else 2 * Pow2(k - 1)
  }

  /** A capacity reached by doubling: some more doublings away from all there is. */
  ghost predicate Doublings(capacity: nat) {
    exists k: nat :: capacity * Pow2(k) == NUMBER_ROOM
  }

  lemma FirstCapacity()
    ensures Doublings(128)
  {
    assert Pow2(8) == 0x100;
    assert Pow2(16) == 0x1_0000;
    assert Pow2(24) == 0x100_0000;
    assert Pow2(32) == 0x1_0000_0000;
    assert Pow2(40) == 0x100_0000_0000;
    assert Pow2(48) == 0x1_0000_0000_0000;
    assert Pow2(56) == 0x100_0000_0000_0000;
    assert 128 * Pow2(56) == NUMBER_ROOM;
  }

  lemma CapacityBound(capacity: nat)
    requires Doublings(capacity)
    ensures 0 < capacity <= NUMBER_ROOM
  {
    var k: nat :| capacity * Pow2(k) == NUMBER_ROOM;
    GrowsBy(capacity, Pow2(k));
  }

  lemma GrowsBy(a: nat, b: nat)
    requires 0 < b
    ensures a <= a * b && (a == 0 ==> a * b == 0)
  {
  }

  /** Doubling wraps, to zero, only when there is no more. */
  lemma DoubleCapacity(capacity: nat)
    requires Doublings(capacity)
    ensures 0 < capacity <= NUMBER_ROOM
    ensures if capacity == NUMBER_ROOM then capacity * 2 % (SIZE_MAX + 1) == 0
            else capacity * 2 % (SIZE_MAX + 1) == capacity * 2 && Doublings(capacity * 2)
  {
    CapacityBound(capacity);
    if capacity != NUMBER_ROOM {
      var k: nat :| capacity * Pow2(k) == NUMBER_ROOM;
      DoubledOnce(capacity, k);
      assert Doublings(capacity * 2);
      CapacityBound(capacity * 2);
    }
  }

  lemma DoubledOnce(capacity: nat, k: nat)
    requires capacity * Pow2(k) == NUMBER_ROOM && capacity != NUMBER_ROOM
    ensures 0 < k && capacity * 2 * Pow2(k - 1) == NUMBER_ROOM
  {
    if k != 0 {
      var h := Pow2(k - 1);
      assert capacity * (2 * h) == capacity * 2 * h;
    }
  }

  // ----- The transcoder -----

  class Transcoder {
    const cursor: Cursor
    const pretty: bool
    const base: nat
    var depth: nat
    var out: bytes

    ghost const rules: Rules

    ghost predicate Configured()
      reads {}
      ensures Configured() ==> Transcoding(rules) && !cursor.counted && cursor.maxTotal == rules.limits.maxTotal == rules.limits.maxString == 0
    {
      !cursor.counted && cursor.maxTotal == 0 && rules == TranscodeRules(pretty, base)
    }

    /** The level a break is indented to is a size. */
    ghost predicate LevelOk()
      reads this`depth
    {
      pretty ==> base + depth < SIZE_MAX
    }

    constructor (cursor: Cursor, pretty: bool, base: nat)
      requires !cursor.counted && cursor.maxTotal == 0
      ensures Configured() && this.cursor == cursor && this.pretty == pretty && this.base == base
      ensures rules == TranscodeRules(pretty, base) && depth == 0 && out == []
    {
      this.cursor, this.pretty, this.base := cursor, pretty, base;
      rules := TranscodeRules(pretty, base);
      depth, out := 0, [];
    }

    method Emit(data: bytes)
      modifies this`out
      ensures out == old(out) + data
    {
      out := out + data;
    }

    /** A newline and two spaces per level, written in pieces of at most 64 spaces. */
    method EmitIndent(level: nat) returns (status: Status)
      modifies this`out
      ensures status == if level <= SIZE_MAX / 2 then Ok else Overflow
      ensures status == Ok ==> out == old(out) + Break(level)
    {
      if SIZE_MAX / 2 < level {
        return Overflow;
      }
      var spaces := level * 2;
      if spaces <= 64 {
        Emit([NEWLINE] + SPACES_64[..spaces]);
        return Ok;
      }
      Emit([NEWLINE] + SPACES_64);
      spaces := spaces - 64;
      while 64 < spaces
        invariant 0 < spaces <= level * 2 && out == old(out) + ([NEWLINE] + Spaces(level * 2 - spaces))
      {
        Emit(SPACES_64);
        spaces := spaces - 64;
      }
      if spaces != 0 {
        Emit(SPACES_64[..spaces]);
      }
      status := Ok;
    }

    /** What follows a backslash, its two- or six-character escape copied. */
    method TranscodeEscape() returns (status: Status)
      requires Configured() && cursor.Valid()
      modifies this`out, cursor
      ensures cursor.Sound() && (status == Ok ==> cursor.Valid())
      ensures var r := ScanEscape(cursor.text, old(cursor.Pos()), rules);
              if r.Bad? then status == r.status
              else status == Ok && cursor.Pos() == r.next && out == old(out) + cursor.text[old(cursor.Pos())..r.next]
    {
      hide Cursor.Valid, Cursor.ValidAhead, Cursor.Sound, Cursor.SourceValid, ScanHex;
      ghost var s, start := cursor.text, cursor.Pos();
      var ch := cursor.Getc();
      if ch == FAILED || ch == EOF {
        return if ch == FAILED then Overflow else InvalidJson;
      }
      if ch == QUOTE || ch == BACKSLASH || ch == 47 || ch == 98 || ch == 102 || ch == 110 || ch == 114 || ch == 116 {
        Emit([ch]);
        assert s[start..start + 1] == [ch];
        return Ok;
      }
      if ch != 117 {
        return InvalidJson;
      }
      Emit([ch]);
      status := TranscodeHex4();
      if status == Ok {
        FirstOfSlice(s, start, cursor.Pos());
      }
    }

    /** The four hex digits of an escape. */
    method TranscodeHex4() returns (status: Status)
      requires Configured() && cursor.Valid()
      modifies this`out, cursor
      ensures cursor.Sound() && (status == Ok ==> cursor.Valid())
      ensures var r := ScanHex(cursor.text, old(cursor.Pos()), 4, 0);
              if r.Bad? then status == r.status
              else status == Ok && cursor.Pos() == r.next && out == old(out) + cursor.text[old(cursor.Pos())..r.next]
    {
      hide Cursor.Valid, Cursor.ValidAhead, Cursor.Sound, Cursor.SourceValid, Cursor.CanUnget, ScanHex, HexProgress;
      ghost var s, start := cursor.text, cursor.Pos();
      ghost var all := ScanHex(s, start, 4, 0);
      ghost var done: bytes := [];
      HexStarts(s, start, 0);
      var i := 0;
      while i < 4
        invariant 0 <= i <= 4 && cursor.Valid() && cursor.Pos() == start + i
        invariant out == old(out) + done
        invariant HexProgress(all, ScanHex(s, start + i, 4 - i, 0), done)
      {
        var ch := cursor.Getc();
        if ch == FAILED || ch == EOF || HexDigit(ch) < 0 {
          HexFails(s, start + i, 4 - i, 0, all, done);
          return if ch == FAILED then Overflow else InvalidJson;
        }
        HexStep(s, start + i, 4 - i, 0, all, done, ch);
        Emit([ch]);
        assert old(out) + done + [ch] == old(out) + (done + [ch]);
        done := done + [ch];
        i := i + 1;
      }
      HexCopied(s, start, done);
      status := Ok;
    }

    /** Copies the plain bytes at hand. */
    method CopySpan(ghost start: nat, ghost n: nat, ghost before: bytes) returns (took: bool, ghost n': nat)
      requires Configured() && cursor.Valid() && InString(rules, cursor.text, start, cursor.Pos(), n, before, out)
      modifies this`out, cursor
      ensures cursor.Valid() && InString(rules, cursor.text, start, cursor.Pos(), n', before, out)
      ensures if took then old(cursor.Pos()) < cursor.Pos() else old(cursor.Pos()) == cursor.Pos()
    {
      hide Cursor.Valid, Cursor.ValidAhead, Cursor.Sound, Cursor.SourceValid, Cursor.SpanAvailable, InString;
      var span := cursor.PlainSpan();
      var k := PlainPrefix(span);
      if k == 0 {
        return false, n;
      }
      InStringSpan(rules, cursor.text, start, cursor.Pos(), n, before, out, span, k);
      Emit(span[..k]);
      SpanShorter(cursor, |span|, k);
      UncountedAhead(cursor);
      cursor.AdvanceSpan(k);
      took, n' := true, n + k;
    }

    /** Copies one byte of a string, one escape, or the quote that ends it. */
    method CopyByte(ghost start: nat, ghost n: nat, ghost before: bytes) returns (status: Status, ended: bool, ghost n': nat)
      requires Configured() && cursor.Valid() && InString(rules, cursor.text, start, cursor.Pos(), n, before, out)
      modifies this`out, cursor
      ensures cursor.Sound()
      ensures var r := ScanChars(cursor.text, start, 0, 0, rules);
              if status != Ok then r.Bad? && r.status == status
              else
                && cursor.Valid() && old(cursor.Pos()) < cursor.Pos()
                && (if ended then r.Good? && r.next == cursor.Pos() && out == before + CharsText(r.value)
                    else InString(rules, cursor.text, start, cursor.Pos(), n', before, out))
    {
      hide Cursor.Valid, Cursor.ValidAhead, Cursor.Sound, Cursor.SourceValid, InString;
      hide ScanChars, CharsText, ScanEscape, ScanUnit, UnitBytes;
      ghost var s, p := cursor.text, cursor.Pos();
      ended, n' := false, n;
      ByteDecides(s, p, n, 0, rules);
      var ch := cursor.Getc();
      if ch == FAILED || ch == EOF || ch < 0x20 {
        InStringBad(rules, s, start, p, n, before, out);
        status := if ch == FAILED then Overflow else InvalidJson;
        return;
      }
      ghost var was := out;
      Emit([ch]);
      if ch == QUOTE {
        InStringEnds(rules, s, start, p, n, before, was);
        return Ok, true, n;
      }
      if ch != BACKSLASH {
        InStringPlain(rules, s, start, p, n, before, was);
        return Ok, false, n + 1;
      }
      status := TranscodeEscape();
      if status != Ok {
        InStringBad(rules, s, start, p, n, before, was);
        return;
      }
      InStringUnit(rules, s, start, p, n, before, was, cursor.Pos());
      n' := n + |UnitBytes(ScanUnit(s, p, rules).value)|;
      FirstOfSlice(s, p, cursor.Pos());
      assert was + ([ch] + s[p + 1..cursor.Pos()]) == was + [ch] + s[p + 1..cursor.Pos()];
    }

    /** A string whose opening quote is read, copied as it stands. */
    method TranscodeString() returns (status: Status)
      requires Configured() && cursor.Valid()
      modifies this`out, cursor
      ensures cursor.Sound() && (status == Ok ==> cursor.Valid())
      ensures var r := ScanChars(cursor.text, old(cursor.Pos()), 0, 0, rules);
              if r.Bad? then status == r.status
              else status == Ok && cursor.Pos() == r.next && out == old(out) + StringText(r.value)
    {
      hide Cursor.Valid, Cursor.ValidAhead, Cursor.Sound, Cursor.SourceValid, InString, ScanChars, CharsText;
      ghost var s, start, n := cursor.text, cursor.Pos(), 0;
      Emit([QUOTE]);
      ghost var before := out;
      InStringStarts(rules, s, start, before);
      var ended := false;
      while !ended
        invariant cursor.Valid()
        invariant var r := ScanChars(s, start, 0, 0, rules);
                  if ended then r.Good? && r.next == cursor.Pos() && out == before + CharsText(r.value)
                  else InString(rules, s, start, cursor.Pos(), n, before, out)
        decreases |s| - cursor.Pos(), if ended then 0 else 1
      {
        var took;
        took, n := CopySpan(start, n, before);
        if !took {
          status, ended, n := CopyByte(start, n, before);
          if status != Ok {
            return;
          }
        }
      }
      status := Ok;
      ghost var r := ScanChars(s, start, 0, 0, rules);
      assert old(out) + ([QUOTE] + CharsText(r.value)) == old(out) + [QUOTE] + CharsText(r.value);
    }

    /** Collects the run of number bytes after a first byte already read, in a
        buffer that starts with 128 bytes and doubles. It overflows exactly when
        doubling wraps. */
    method ReadToken(first: byte) returns (status: Status, number: bytes)
      requires Configured() && cursor.Valid() && 0 < cursor.Pos() && cursor.text[cursor.Pos() - 1] == first
      modifies cursor
      ensures cursor.Sound() && (status == Ok ==> cursor.Valid())
      ensures var r := ScanRun(cursor.text, old(cursor.Pos()), 1, rules.limits);
              if r.Bad? then status == r.status
              else status == Ok && cursor.Pos() == r.next <= |cursor.text|
                   && cursor.text[old(cursor.Pos()) - 1..r.next] == number
    {
      hide Cursor.Valid, Cursor.ValidAhead, Cursor.Sound, Cursor.SourceValid, Cursor.CanUnget, ScanRun, RunState, Cursor.Pos, Doublings;
      ghost var s, start := cursor.text, cursor.Pos() - 1;
      ghost var all := ScanRun(s, start + 1, 1, rules.limits);
      var capacity: nat := 128;
      FirstCapacity();
      number := [first];
      RunStateFirst(s, start, first, rules.limits);
      var ch := cursor.Getc();
      while 0 <= ch && IsNumberByte(ch)
        invariant cursor.Valid() && (0 <= ch ==> cursor.CanUnget() && s[cursor.Pos() - 1] == ch)
        invariant ch == Code(ReadAt(s, start + |number|, 0))
        invariant cursor.Pos() == start + |number| + (if 0 <= ch then 1 else 0)
        invariant RunState(s, start, number, rules.limits, all) && |number| <= capacity && Doublings(capacity)
        decreases |s| - cursor.Pos(), if ch < 0 then 0 else 1
      {
        RunStateNext(s, start, number, rules.limits, all, ch);
        if capacity <= |number| {
          DoubleCapacity(capacity);
          var nextCapacity := capacity * 2 % (SIZE_MAX + 1);
          if nextCapacity <= capacity {
            return Overflow, number;
          }
          capacity := nextCapacity;
        }
        CapacityBound(capacity);
        number := number + [ch];
        ch := cursor.Getc();
      }
      RunStateStops(s, start, number, rules.limits, all);
      if 0 <= ch {
        cursor.Ungetc(ch);
      }
      status := Ok;
    }

    method TranscodeNumber(first: byte) returns (status: Status)
      requires Configured() && cursor.Valid() && 0 < cursor.Pos() && cursor.text[cursor.Pos() - 1] == first
      modifies this`out, cursor
      ensures cursor.Sound() && (status == Ok ==> cursor.Valid())
      ensures Written(ScanNumber(cursor.text, old(cursor.Pos()) - 1, rules.limits), pretty, base + depth, status, cursor.Pos(), old(out), out)
    {
      hide Cursor.Valid, Cursor.ValidAhead, Cursor.Sound, Cursor.SourceValid, ScanRun, IsNumber;
      var number;
      status, number := ReadToken(first);
      if status != Ok {
        return;
      }
      var ok := NumberCheck.IsValidJsonNumber(number);
      if !ok {
        return InvalidJson;
      }
      Emit(number);
    }

    method TranscodeLiteral(first: byte, rest: bytes, ghost word: Word) returns (status: Status)
      requires Configured() && cursor.Valid() && 0 < cursor.Pos() && WordText(word) == [first] + rest
      modifies this`out, cursor
      ensures cursor.Sound() && (status == Ok ==> cursor.Valid())
      ensures Written(ScanLiteral(cursor.text, old(cursor.Pos()) - 1, word, 0), pretty, base + depth, status, cursor.Pos(), old(out), out)
    {
      hide Cursor.Valid, Cursor.ValidAhead, Cursor.Sound, Cursor.SourceValid, ScanWord;
      assert WordText(word)[1..] == rest;
      Emit([first]);
      status := CopyWord(rest);
      assert old(out) + [first] + rest == old(out) + ([first] + rest);
    }

    /** Exactly the bytes `rest`, copied one by one. */
    method CopyWord(rest: bytes) returns (status: Status)
      requires Configured() && cursor.Valid()
      modifies this`out, cursor
      ensures cursor.Sound() && (status == Ok ==> cursor.Valid())
      ensures var r := ScanWord(cursor.text, old(cursor.Pos()), rest, 0);
              if r.Bad? then status == r.status else status == Ok && cursor.Pos() == r.next && out == old(out) + rest
    {
      hide Cursor.Valid, Cursor.ValidAhead, Cursor.Sound, Cursor.SourceValid, ScanWord;
      ghost var s, start := cursor.text, cursor.Pos();
      assert rest[0..] == rest;
      var i := 0;
      while i < |rest|
        invariant 0 <= i <= |rest| && cursor.Valid() && cursor.Pos() == start + i
        invariant out == old(out) + rest[..i]
        invariant ScanWord(s, start, rest, 0) == ScanWord(s, start + i, rest[i..], 0)
      {
        WordStep(s, start + i, rest, i, 0);
        var ch := cursor.Getc();
        if ch == FAILED || ch != rest[i] {
          return if ch == FAILED then Overflow else InvalidJson;
        }
        Emit([ch]);
        assert rest[..i + 1] == rest[..i] + [ch];
        i := i + 1;
      }
      WordEnd(s, start + i, rest, 0);
      assert rest[..i] == rest;
      status := Ok;
    }

    /** An object key, the colon after it, and in the pretty form a space. */
    method TranscodeKey() returns (status: Status)
      requires Configured() && cursor.Valid()
      modifies this`out, cursor
      ensures cursor.Sound() && (status == Ok ==> cursor.Valid())
      ensures var r := ScanKey(cursor.text, old(cursor.Pos()), true, rules);
              if r.Bad? then status == r.status
              else status == Ok && cursor.Pos() == r.next && out == old(out) + (KeyText(RelayoutKey(r.value.1)) + KeyGap(pretty))
    {
      hide Cursor.Valid, Cursor.ValidAhead, Cursor.Sound, Cursor.SourceValid, ScanChars;
      hide SkipSpace, StringText, KeyText, RelayoutKey, KeyGap;
      ghost var s, p := cursor.text, cursor.Pos();
      var ch := cursor.PeekNonspace();
      if ch == FAILED || ch == EOF {
        return if ch == FAILED then Overflow else InvalidJson;
      }
      ch := cursor.Getc();
      if ch != QUOTE {
        return InvalidJson;
      }
      ghost var c := ScanChars(s, cursor.Pos(), 0, 0, rules);
      status := TranscodeString();
      if status != Ok {
        return;
      }
      ch := cursor.PeekNonspace();
      if ch != COLON {
        return InvalidJson;
      }
      ch := cursor.Getc();
      Emit(if pretty then [COLON, SPACE] else [COLON]);
      KeyWritten(c.value, ScanKey(s, p, true, rules).value.1, pretty, old(out), out);
    }

    method TranscodeArray() returns (status: Status)
      requires Configured() && cursor.Valid() && LevelOk()
      modifies this, cursor
      ensures depth == old(depth)
      ensures cursor.Sound() && (status == Ok ==> cursor.Valid())
      ensures Written(BoxAnswer(cursor.text, old(cursor.Pos()), false, depth, rules), pretty, base + depth, status, cursor.Pos(), old(out), out)
      decreases |cursor.text| - cursor.Pos(), 2
    {
      hide Cursor.Valid, Cursor.ValidAhead, Cursor.Sound, Cursor.SourceValid, Cursor.Pos, SkipSpace, LevelOk;
      hide InBox, ScanBody, ScanEntry, ScanValue, ScanKey, EntryOutput, Written, BoxAnswer, Indent;
      ghost var s, start := cursor.text, cursor.Pos();
      Emit([91]);
      InBoxStarts(rules, s, start, false, depth, pretty, base + depth, old(out));
      var first := true;
      while true
        invariant depth == old(depth) && cursor.Valid() && start <= cursor.Pos() && LevelOk()
        invariant InBox(rules, s, start, cursor.Pos(), false, first, depth, pretty, base + depth, old(out), out)
        invariant !first && pretty ==> base + depth <= SIZE_MAX / 2
        decreases |s| - cursor.Pos()
      {
        ghost var p, was := cursor.Pos(), out;
        BodyByte(s, p, false, first, depth, rules);
        var ch := cursor.PeekNonspace();
        if ch == FAILED || ch == EOF {
          status := if ch == FAILED then Overflow else InvalidJson;
          InBoxFails(rules, s, start, p, false, first, depth, pretty, base + depth, old(out), was, status, cursor.Pos(), out);
          return;
        }
        if ch == 93 {
          ch := cursor.Getc();
          status := CloseBox(false, first);
          InBoxEnds(rules, s, start, p, false, first, depth, pretty, base + depth, old(out), was, cursor.Pos(), out);
          return;
        }
        ghost var q := cursor.Pos();
        ghost var k, x, n;
        status, k, x, n := TranscodeEntry(false, first, p);
        if status != Ok {
          InBoxFails(rules, s, start, p, false, first, depth, pretty, base + depth, old(out), was, status, cursor.Pos(), out);
          return;
        }
        InBoxEntry(rules, s, start, p, false, first, depth, pretty, base + depth, old(out), was, q, k, x, n, cursor.Pos(), out);
        first := false;
      }
    }

    method TranscodeObject() returns (status: Status)
      requires Configured() && cursor.Valid() && LevelOk()
      modifies this, cursor
      ensures depth == old(depth)
      ensures cursor.Sound() && (status == Ok ==> cursor.Valid())
      ensures Written(BoxAnswer(cursor.text, old(cursor.Pos()), true, depth, rules), pretty, base + depth, status, cursor.Pos(), old(out), out)
      decreases |cursor.text| - cursor.Pos(), 2
    {
      hide Cursor.Valid, Cursor.ValidAhead, Cursor.Sound, Cursor.SourceValid, Cursor.Pos, SkipSpace, LevelOk;
      hide InBox, ScanBody, ScanEntry, ScanValue, ScanKey, EntryOutput, Written, BoxAnswer, Indent;
      ghost var s, start := cursor.text, cursor.Pos();
      Emit([123]);
      InBoxStarts(rules, s, start, true, depth, pretty, base + depth, old(out));
      var first := true;
      while true
        invariant depth == old(depth) && cursor.Valid() && start <= cursor.Pos() && LevelOk()
        invariant InBox(rules, s, start, cursor.Pos(), true, first, depth, pretty, base + depth, old(out), out)
        invariant !first && pretty ==> base + depth <= SIZE_MAX / 2
        decreases |s| - cursor.Pos()
      {
        ghost var p, was := cursor.Pos(), out;
        BodyByte(s, p, true, first, depth, rules);
        var ch := cursor.PeekNonspace();
        if ch == FAILED || ch == EOF {
          status := if ch == FAILED then Overflow else InvalidJson;
          InBoxFails(rules, s, start, p, true, first, depth, pretty, base + depth, old(out), was, status, cursor.Pos(), out);
          return;
        }
        if ch == 125 {
          ch := cursor.Getc();
          status := CloseBox(true, first);
          InBoxEnds(rules, s, start, p, true, first, depth, pretty, base + depth, old(out), was, cursor.Pos(), out);
          return;
        }
        ghost var q := cursor.Pos();
        ghost var k, x, n;
        status, k, x, n := TranscodeEntry(true, first, p);
        if status != Ok {
          InBoxFails(rules, s, start, p, true, first, depth, pretty, base + depth, old(out), was, status, cursor.Pos(), out);
          return;
        }
        InBoxEntry(rules, s, start, p, true, first, depth, pretty, base + depth, old(out), was, q, k, x, n, cursor.Pos(), out);
        first := false;
      }
    }

    /** The break before a closing bracket, unless nothing came before it, and the bracket. */
    method CloseBox(isObject: bool, first: bool) returns (status: Status)
      requires !first && pretty ==> base + depth <= SIZE_MAX / 2
      modifies this`out
      ensures status == Ok && out == old(out) + (if first then [] else Indent(pretty, base + depth)) + [Closer(isObject)]
    {
      hide Break;
      status := Ok;
      if pretty && !first {
        status := EmitIndent(base + depth);
        if status != Ok {
          return;
        }
      }
      assert old(out) + [] == old(out);
      Emit([Closer(isObject)]);
    }

    /** The comma unless first, and the break in the pretty form. */
    method EnterEntry(isObject: bool, first: bool, ghost p: nat) returns (status: Status)
      requires Configured() && cursor.Valid() && LevelOk()
      requires cursor.Pos() == SkipSpace(cursor.text, p, 0) && p <= cursor.Pos()
      requires ReadAt(cursor.text, cursor.Pos(), 0).Byte? && cursor.text[cursor.Pos()] != Closer(isObject)
      modifies this`out, cursor
      ensures cursor.Sound() && (status == Ok ==> cursor.Valid())
      ensures var s, q := cursor.text, old(cursor.Pos());
              if status != Ok then Fails(ScanBody(s, p, isObject, first, depth, rules), status)
              else
                && ScanBody(s, p, isObject, first, depth, rules) == ScanEntry(s, p, q, isObject, first, depth, rules)
                && cursor.Pos() == (if first then q else q + 1)
                && out == old(out) + (CommaText(first) + Indent(pretty, base + depth + 1))
                && (pretty ==> base + depth + 1 <= SIZE_MAX / 2)
    {
      hide Cursor.Valid, Cursor.ValidAhead, Cursor.Sound, Cursor.SourceValid, Cursor.Pos, SkipSpace;
      hide ScanBody, ScanEntry, Break, HasRoom, TranscodeRules;
      ghost var s, q := cursor.text, cursor.Pos();
      BodyByte(s, p, isObject, first, depth, rules);
      if pretty {
        RoomToIndent(base, depth);
      } else {
        AlwaysRoom(base, depth);
      }
      if !first {
        var ch := cursor.Getc();
        if ch != COMMA {
          return InvalidJson;
        }
        Emit([COMMA]);
      }
      assert out == old(out) + CommaText(first);
      status := Ok;
      if pretty {
        status := EmitIndent(base + depth + 1);
        if status != Ok {
          return;
        }
        assert old(out) + CommaText(first) + Break(base + depth + 1) == old(out) + (CommaText(first) + Break(base + depth + 1));
      } else {
        assert CommaText(first) + [] == CommaText(first);
      }
    }

    /** An entry of a container. */
    method TranscodeEntry(isObject: bool, first: bool, ghost p: nat)
      returns (status: Status, ghost k: (bytes, Key), ghost x: nat, ghost n: Node)
      requires Configured() && cursor.Valid() && LevelOk()
      requires cursor.Pos() == SkipSpace(cursor.text, p, 0) && p <= cursor.Pos()
      requires ReadAt(cursor.text, cursor.Pos(), 0).Byte? && cursor.text[cursor.Pos()] != Closer(isObject)
      modifies this, cursor
      ensures depth == old(depth)
      ensures cursor.Sound() && (status == Ok ==> cursor.Valid())
      ensures var s, q := cursor.text, old(cursor.Pos());
              if status != Ok then Fails(ScanBody(s, p, isObject, first, depth, rules), status)
              else
                && ScanBody(s, p, isObject, first, depth, rules) == ScanEntry(s, p, q, isObject, first, depth, rules)
                && ScanKey(s, if first then q else q + 1, isObject, rules) == Good(k, x)
                && ScanValue(s, x, depth + 1, rules) == Good(n, cursor.Pos())
                && (pretty ==> base + depth + 1 <= SIZE_MAX / 2)
                && out == old(out) + EntryOutput(isObject, first, k.1, n, pretty, base + depth)
      decreases |cursor.text| - cursor.Pos(), 1
    {
      hide Cursor.Valid, Cursor.ValidAhead, Cursor.Sound, Cursor.SourceValid, Cursor.Pos, SkipSpace;
      hide ScanBody, ScanEntry, ScanKey, ScanValue, Indent, KeyGap, KeyText, RelayoutKey, CommaText, OutputText;
      ghost var s, q := cursor.text, cursor.Pos();
      k, x, n := ([], NoKey), 0, Literal(Null);
      status := EnterEntry(isObject, first, p);
      if status != Ok {
        return;
      }
      ghost var here, entered := cursor.Pos(), out;
      if isObject {
        status := TranscodeKey();
        if status != Ok {
          EntryKeyFails(s, p, q, true, first, depth, rules);
          return;
        }
        k := ScanKey(s, here, true, rules).value;
      } else {
        NoKeyOutput(rules, s, here, entered);
      }
      x := cursor.Pos();
      ghost var keyed := out;
      depth := depth + 1;
      status := TranscodeValue();
      depth := depth - 1;
      if status != Ok {
        EntryValueFails(s, p, q, isObject, first, depth, rules, k, x);
        return;
      }
      n := ScanValue(s, x, depth + 1, rules).value;
      EntryWritten(isObject, first, k.1, n, pretty, base + depth, old(out), entered, keyed, out);
    }

    /** A value and the whitespace before it, which is dropped. */
    method TranscodeValue() returns (status: Status)
      requires Configured() && cursor.Valid() && LevelOk()
      modifies this, cursor
      ensures depth == old(depth)
      ensures cursor.Sound() && (status == Ok ==> cursor.Valid())
      ensures Written(ScanValue(cursor.text, old(cursor.Pos()), depth, rules), pretty, base + depth, status, cursor.Pos(), old(out), out)
      decreases |cursor.text| - cursor.Pos(), 0
    {
      hide Cursor.Valid, Cursor.ValidAhead, Cursor.Sound, Cursor.SourceValid, Cursor.Pos;
      hide SkipSpace, ScanNode, ScanChars, ScanNumber, ScanLiteral, BoxAnswer;
      hide OutputText, Configured, Transcoding, LevelOk, TranscodeRules;
      var ch := cursor.PeekNonspace();
      if ch == FAILED || ch == EOF {
        return if ch == FAILED then Overflow else InvalidJson;
      }
      ghost var q := cursor.Pos();
      ch := cursor.Getc();
      NodeByte(cursor.text, q, depth, rules);
      if ch == QUOTE {
        status := TranscodeString();
        StringOutput(ScanChars(cursor.text, q + 1, 0, 0, rules), pretty, base + depth);
      } else if ch == 123 {
        status := TranscodeObject();
      } else if ch == 91 {
        status := TranscodeArray();
      } else if ch == 116 {
        status := TranscodeLiteral(ch, [114, 117, 101], True);
      } else if ch == 102 {
        status := TranscodeLiteral(ch, [97, 108, 115, 101], False);
      } else if ch == 110 {
        status := TranscodeLiteral(ch, [117, 108, 108], Null);
      } else if ch == MINUS || IsDigit(ch) {
        status := TranscodeNumber(ch);
      } else {
        status := InvalidJson;
      }
    }
  }

  // ----- Whole texts -----

  /** What a transcoding of a whole text must answer: the status, and on success
      the text of its one tree in the new layout. */
  ghost predicate Transcoded(text: bytes, pretty: bool, base: nat, status: Status, out: bytes) {
    var rules := TranscodeRules(pretty, base);
    && (status == Ok <==> exists doc :: DocumentAccepted(text, rules, doc))
    && (forall doc :: DocumentAccepted(text, rules, doc) ==> out == OutputText(doc.value, pretty, base))
    && (status != Ok ==> Fails(ScanDocument(text, rules), status))
  }

  lemma TranscodingAnswers(text: bytes, pretty: bool, base: nat, status: Status, out: bytes)
    requires var r := ScanDocument(text, TranscodeRules(pretty, base));
             if r.Bad? then status == r.status else status == Ok && out == OutputText(r.value.value, pretty, base)
    ensures Transcoded(text, pretty, base, status, out)
  {
    hide ScanDocument, DocumentAccepted, OutputText;
    var rules := TranscodeRules(pretty, base);
    AcceptsExactlyTheGrammar(text, rules);
    forall doc | DocumentAccepted(text, rules, doc) ensures out == OutputText(doc.value, pretty, base) {
      DocumentComplete(text, rules, doc);
    }
  }

  /** Transcodes the one value of a text. */
  method TranscodeCursor(cursor: Cursor, pretty: bool, base: nat) returns (status: Status, out: bytes)
    requires cursor.Valid() && cursor.Pos() == 0 && !cursor.counted && cursor.maxTotal == 0
    requires pretty ==> base < SIZE_MAX
    modifies cursor
    ensures Transcoded(cursor.text, pretty, base, status, out)
  {
    hide ScanDocument, ScanValue, SkipSpace, Transcoded, OutputText;
    hide Cursor.ValidAhead, Cursor.SourceValid, Cursor.Valid, Cursor.Sound, Cursor.Pos;
    var transcoder := new Transcoder(cursor, pretty, base);
    ghost var s, rules := cursor.text, TranscodeRules(pretty, base);
    status := transcoder.TranscodeValue();
    ghost var v := ScanValue(s, 0, 0, rules);
    if v.Good? {
      DocumentEnds(s, rules, v.next, v.value);
    } else {
      ValueFails(s, rules);
    }
    if status == Ok {
      var ch := cursor.PeekNonspace();
      if ch != EOF {
        status := InvalidJson;
      }
    }
    out := transcoder.out;
    assert v.Good? ==> [] + OutputText(v.value, pretty, base) == OutputText(v.value, pretty, base);
    TranscodingAnswers(s, pretty, base, status, out);
  }

  // ----- Rewriting preserves meaning -----

  /** Compact output is the input with the whitespace outside strings deleted and
      nothing else changed. */
  lemma CompactDeletesOnlyWhitespace(text: bytes, base: nat, out: bytes)
    requires Transcoded(text, false, base, Ok, out)
    ensures out == Strip(text, Outside)
  {
    hide DocumentText, OutputText, Strip, ScanDocument, NodeWithin, NodeWellFormed;
    var doc :| DocumentAccepted(text, TranscodeRules(false, base), doc);
    CompactIsStripped(doc, base);
  }

  /** The output's tree is the original's in its new layout, and is transcoded
      whenever that is. */
  lemma OutputTree(text: bytes, p: bool, b: nat, mid: bytes, doc: Document, pretty: bool, base: nat)
    requires Transcoded(text, p, b, Ok, mid) && DocumentAccepted(text, TranscodeRules(p, b), doc)
    ensures var doc' := OutputDocument(doc, p, b);
            DocumentAccepted(mid, TranscodeRules(pretty, base), doc') <==> DocumentAccepted(text, TranscodeRules(pretty, base), doc)
  {
    hide ScanDocument, NodeText, Relayout, NodeWellFormed, NodeWithin, DocumentText, OutputText;
    OutputDocumentText(doc, p, b);
    RelayoutWithin(doc.value, p, b, 0, TranscodeRules(pretty, base));
  }

  lemma AnyTreeIsIt(text: bytes, rules: Rules, doc: Document, rules': Rules, d: Document)
    requires DocumentAccepted(text, rules, doc) && DocumentAccepted(text, rules', d)
    ensures d == doc
  {
    hide DocumentText, NodeWithin;
    GrammarIsUnambiguous(doc, d);
  }

  /** Only the last of two rewritings counts: transcoding an output gives, with
      the same success, what transcoding the original gives. Compact form is
      idempotent, and each form can be had from the other. */
  lemma LastTranscodingCounts(text: bytes, p: bool, b: nat, mid: bytes, pretty: bool, base: nat,
                              status: Status, out: bytes, status': Status, out': bytes)
    requires Transcoded(text, p, b, Ok, mid)
    requires Transcoded(mid, pretty, base, status, out) && Transcoded(text, pretty, base, status', out')
    ensures (status == Ok <==> status' == Ok) && (status == Ok ==> out == out')
  {
    hide DocumentAccepted, ScanDocument, Relayout, NodeText, TranscodeRules;
    var rules := TranscodeRules(pretty, base);
    var doc :| DocumentAccepted(text, TranscodeRules(p, b), doc);
    var doc' := OutputDocument(doc, p, b);
    OutputTree(text, p, b, mid, doc, pretty, base);
    OutputTree(text, p, b, mid, doc, p, b);
    RelayoutTwice(doc.value, p, b, pretty, base);
    forall d | DocumentAccepted(mid, rules, d) ensures d == doc' {
      AnyTreeIsIt(mid, TranscodeRules(p, b), doc', rules, d);
    }
    forall d | DocumentAccepted(text, rules, d) ensures d == doc {
      AnyTreeIsIt(text, TranscodeRules(p, b), doc, rules, d);
    }
  }

  lemma CompactIsIdempotent(text: bytes, base: nat, out: bytes, base': nat, status: Status, out': bytes)
    requires Transcoded(text, false, base, Ok, out) && Transcoded(out, false, base', status, out')
    ensures status == Ok && out' == out
  {
    hide DocumentAccepted, ScanDocument, Relayout, NodeText;
    assert TranscodeRules(false, base) == TranscodeRules(false, base');
    var doc :| DocumentAccepted(text, TranscodeRules(false, base), doc);
    OutputTree(text, false, base, out, doc, false, base');
    RelayoutTwice(doc.value, false, base, false, base');
    CompactDepth(doc.value, base, base');
  }

  /** The compact form does not depend on the level. */
  lemma CompactDepth(n: Node, d: nat, e: nat)
    ensures Relayout(n, false, d) == Relayout(n, false, e)
  {
    if n.Box? {
      CompactBodyDepth(n.body, n.isObject, true, d, e);
    }
  }

  lemma CompactBodyDepth(b: Body, isObject: bool, first: bool, d: nat, e: nat)
    ensures RelayoutBody(b, isObject, first, false, d) == RelayoutBody(b, isObject, first, false, e)
  {
    if b.Entry? {
      CompactDepth(b.value, d + 1, e + 1);
      CompactBodyDepth(b.rest, isObject, false, d, e);
    }
  }
}
