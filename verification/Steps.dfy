/** How the scanner's answer changes as a pass moves along a text: the loop
    invariants of the visitors and the transcoder, one step at a time. */
module Steps {
  import opened Bytes
  import opened Grammar
  import opened Scanner
  import opened StringProofs

  // ----- Hex digits -----

  /** `done` digits read, the answer `now` leads to the answer `all`. */
  ghost predicate HexProgress(all: Out<bytes>, now: Out<bytes>, done: bytes) {
    if all.Bad? then now == all else now.Good? && now.next == all.next && all.value == done + now.value
  }

  lemma HexStep(s: bytes, p: nat, n: nat, maxTotal: nat, all: Out<bytes>, done: bytes, b: byte)
    requires 0 < n && ReadAt(s, p, maxTotal) == Byte(b) && IsHex(b)
    requires HexProgress(all, ScanHex(s, p, n, maxTotal), done)
    ensures HexProgress(all, ScanHex(s, p + 1, n - 1, maxTotal), done + [b])
  {
    var now := ScanHex(s, p + 1, n - 1, maxTotal);
    if now.Good? {
      assert done + ([b] + now.value) == done + [b] + now.value;
    }
  }

  lemma HexFails(s: bytes, p: nat, n: nat, maxTotal: nat, all: Out<bytes>, done: bytes)
    requires 0 < n && HexProgress(all, ScanHex(s, p, n, maxTotal), done)
    requires ReadAt(s, p, maxTotal).Byte? ==> !IsHex(s[p])
    ensures all == Bad(if ReadAt(s, p, maxTotal) == OverLimit then Overflow else InvalidJson)
  {
  }

  lemma HexStarts(s: bytes, p: nat, maxTotal: nat)
    ensures HexProgress(ScanHex(s, p, 4, maxTotal), ScanHex(s, p, 4, maxTotal), [])
  {
  }

  lemma HexEnds(s: bytes, p: nat, maxTotal: nat, all: Out<bytes>, done: bytes)
    requires HexProgress(all, ScanHex(s, p, 0, maxTotal), done)
    ensures all == Good(done, p)
  {
    assert done + [] == done;
  }

  // ----- String content -----

  /** The answer `now`, after `done` decoded bytes, leads to the answer `all`. */
  ghost predicate CharsProgress(all: Out<Chars>, now: Out<Chars>, done: bytes) {
    if all.Bad? then now == all
    else now.Good? && now.next == all.next && Decode(all.value) == done + Decode(now.value)
  }

  lemma CharsProgressTrans(all: Out<Chars>, mid: Out<Chars>, now: Out<Chars>, a: bytes, b: bytes)
    requires CharsProgress(all, mid, a) && CharsProgress(mid, now, b)
    ensures CharsProgress(all, now, a + b)
  {
    if all.Good? {
      assert a + (b + Decode(now.value)) == a + b + Decode(now.value);
    }
  }

  lemma ScanCharsUnfold(s: bytes, p: nat, n: nat, limit: nat, rules: Rules, u: Unit, q: nat)
    requires ReadAt(s, p, rules.limits.maxTotal) != Byte(QUOTE) && ScanUnit(s, p, rules) == Good(u, q)
    ensures ScanChars(s, p, n, limit, rules) ==
            if Exceeds(limit, n + |UnitBytes(u)|) then Bad(Overflow)
            else match ScanChars(s, q, n + |UnitBytes(u)|, limit, rules)
              case Bad(st) => Bad(st)
              case Good(c, e) => Good(Prepend(u, c), e)
  {
    hide ScanUnit, UnitBytes, Prepend, ReadAt, Exceeds;
  }

  /** One unit of string content has been read. */
  lemma UnitStep(s: bytes, p: nat, n: nat, limit: nat, rules: Rules, u: Unit, q: nat)
    requires rules.paired && ReadAt(s, p, rules.limits.maxTotal) != Byte(QUOTE)
    requires ScanUnit(s, p, rules) == Good(u, q)
    ensures if Exceeds(limit, n + |UnitBytes(u)|) then ScanChars(s, p, n, limit, rules) == Bad(Overflow)
            else CharsProgress(ScanChars(s, p, n, limit, rules),
                               ScanChars(s, q, n + |UnitBytes(u)|, limit, rules), UnitBytes(u))
  {
    hide ReadAt, Exceeds, ScanUnit, ScanChars, UnitOk, UnitText, UnitBytes, Prepend, Decode;
    UnitSound(s, p, rules);
    ScanCharsUnfold(s, p, n, limit, rules, u, q);
    var now := ScanChars(s, q, n + |UnitBytes(u)|, limit, rules);
    if now.Good? {
      PrependFacts(u, now.value, true);
    }
  }

  /** A run of plain bytes taken at once is as good as one by one. */
  lemma {:induction false} PlainRun(s: bytes, p: nat, n: nat, limit: nat, rules: Rules, k: nat)
    requires rules.paired && p + k <= |s| && (forall i :: p <= i < p + k ==> IsPlain(s[i]))
    ensures if k != 0 && (Exceeds(rules.limits.maxTotal, p + k) || Exceeds(limit, n + k)) then
              ScanChars(s, p, n, limit, rules) == Bad(Overflow)
            else
              CharsProgress(ScanChars(s, p, n, limit, rules), ScanChars(s, p + k, n + k, limit, rules), s[p..p + k])
    decreases k
  {
    hide ScanChars, CharsProgress, IsPlain;
    if k == 0 {
      EmptyProgress(ScanChars(s, p, n, limit, rules));
      assert s[p..p] == [];
    } else {
      PlainRun(s, p + 1, n + 1, limit, rules, k - 1);
      PlainStep(s, p, n, limit, rules);
      if !Exceeds(rules.limits.maxTotal, p + k) && !Exceeds(limit, n + k) {
        CharsProgressTrans(ScanChars(s, p, n, limit, rules), ScanChars(s, p + 1, n + 1, limit, rules),
                           ScanChars(s, p + k, n + k, limit, rules), [s[p]], s[p + 1..p + k]);
        assert s[p..p + k] == [s[p]] + s[p + 1..p + k];
      }
    }
  }

  lemma EmptyProgress(r: Out<Chars>)
    ensures CharsProgress(r, r, [])
  {
  }

  lemma PlainStep(s: bytes, p: nat, n: nat, limit: nat, rules: Rules)
    requires rules.paired && p < |s| && IsPlain(s[p])
    ensures if Exceeds(rules.limits.maxTotal, p + 1) || Exceeds(limit, n + 1) then
              ScanChars(s, p, n, limit, rules) == Bad(Overflow)
            else
              CharsProgress(ScanChars(s, p, n, limit, rules), ScanChars(s, p + 1, n + 1, limit, rules), [s[p]])
  {
    if !Exceeds(rules.limits.maxTotal, p + 1) {
      assert ScanUnit(s, p, rules) == Good(One(Raw(s[p])), p + 1);
      UnitStep(s, p, n, limit, rules, One(Raw(s[p])), p + 1);
    }
  }

  /** What the byte at `p` makes of the answer, when it ends the string or the
      scan, or starts an escape. */
  lemma ByteDecides(s: bytes, p: nat, n: nat, limit: nat, rules: Rules)
    ensures var r := ReadAt(s, p, rules.limits.maxTotal);
            var now := ScanChars(s, p, n, limit, rules);
            match r
            case AtEnd => now == Bad(InvalidJson)
            case OverLimit => now == Bad(Overflow)
            case Byte(c) =>
              && (c == QUOTE ==> now == Good(Done, p + 1))
              && (c < 0x20 ==> now == Bad(InvalidJson))
              && (c == BACKSLASH ==> ScanUnit(s, p, rules) == ScanEscape(s, p + 1, rules)
                                     && (ScanEscape(s, p + 1, rules).Bad? ==> now == Bad(ScanEscape(s, p + 1, rules).status)))
  {
    hide ScanEscape;
  }

  lemma ProgressBad(all: Out<Chars>, now: Out<Chars>, done: bytes)
    requires CharsProgress(all, now, done) && now.Bad?
    ensures all == now
  {
  }

  lemma ProgressDone(all: Out<Chars>, now: Out<Chars>, done: bytes)
    requires CharsProgress(all, now, done) && now.Good? && now.value == Done
    ensures all.Good? && all.next == now.next && Decode(all.value) == done
  {
  }

  // ----- Numbers and words -----

  /** The lookahead byte at `p` continues the number run. */
  lemma RunStep(s: bytes, p: nat, n: nat, limits: Limits)
    requires p < |s| && IsNumberByte(s[p])
    ensures ScanRun(s, p, n, limits) ==
            if Exceeds(limits.maxTotal, p + 1) || Exceeds(limits.maxNumber, n + 1) then Bad(Overflow)
            else ScanRun(s, p + 1, n + 1, limits)
  {
  }

  lemma RunStop(s: bytes, p: nat, n: nat, limits: Limits)
    requires |s| <= p || !IsNumberByte(s[p])
    ensures ScanRun(s, p, n, limits) == Good((), p)
  {
  }

  /** The bytes collected, and the answer `all` that reading on leads to. */
  ghost predicate RunState(s: bytes, start: nat, buffer: bytes, limits: Limits, all: Out<()>) {
    && start + |buffer| <= |s| && s[start..start + |buffer|] == buffer
    && all == ScanRun(s, start + |buffer|, |buffer|, limits)
  }

  lemma RunStateFirst(s: bytes, start: nat, first: byte, limits: Limits)
    requires start < |s| && s[start] == first
    ensures RunState(s, start, [first], limits, ScanRun(s, start + 1, 1, limits))
  {
    hide ScanRun;
    assert s[start..start + 1] == [first];
  }

  lemma RunStateNext(s: bytes, start: nat, buffer: bytes, limits: Limits, all: Out<()>, b: byte)
    requires RunState(s, start, buffer, limits, all)
    requires start + |buffer| < |s| && s[start + |buffer|] == b && IsNumberByte(b)
    ensures if Exceeds(limits.maxTotal, start + |buffer| + 1) || Exceeds(limits.maxNumber, |buffer| + 1) then all == Bad(Overflow)
            else RunState(s, start, buffer + [b], limits, all)
  {
    hide ScanRun;
    RunStep(s, start + |buffer|, |buffer|, limits);
    assert s[start..start + |buffer| + 1] == buffer + [b];
  }

  lemma RunStateStops(s: bytes, start: nat, buffer: bytes, limits: Limits, all: Out<()>)
    requires RunState(s, start, buffer, limits, all)
    requires start + |buffer| < |s| ==> !IsNumberByte(s[start + |buffer|])
    ensures all == Good((), start + |buffer|) && start + |buffer| <= |s| && s[start..start + |buffer|] == buffer
  {
    hide ScanRun;
    RunStop(s, start + |buffer|, |buffer|, limits);
  }

  lemma WordStep(s: bytes, p: nat, w: bytes, i: nat, maxTotal: nat)
    requires i < |w|
    ensures ScanWord(s, p, w[i..], maxTotal) ==
            match ReadAt(s, p, maxTotal)
            case OverLimit => Bad(Overflow)
            case AtEnd => Bad(InvalidJson)
            case Byte(b) => if b == w[i] then ScanWord(s, p + 1, w[i + 1..], maxTotal) else Bad(InvalidJson)
  {
    assert w[i..][1..] == w[i + 1..];
  }

  lemma WordEnd(s: bytes, p: nat, w: bytes, maxTotal: nat)
    ensures ScanWord(s, p, w[|w|..], maxTotal) == Good((), p)
  {
  }

  // ----- Entries of a container -----

  lemma EntryKeyFails(s: bytes, p: nat, q: nat, isObject: bool, first: bool, d: nat, rules: Rules)
    requires p <= q < |s| && ScanKey(s, if first then q else q + 1, isObject, rules).Bad?
    ensures ScanEntry(s, p, q, isObject, first, d, rules) ==
            Bad(ScanKey(s, if first then q else q + 1, isObject, rules).status)
  {
    hide ScanKey, ScanValue, ScanBody;
  }

  lemma EntryValueFails(s: bytes, p: nat, q: nat, isObject: bool, first: bool, d: nat, rules: Rules, k: (bytes, Key), x: nat)
    requires p <= q < |s| && ScanKey(s, if first then q else q + 1, isObject, rules) == Good(k, x)
    requires ScanValue(s, x, d + 1, rules).Bad?
    ensures ScanEntry(s, p, q, isObject, first, d, rules) == Bad(ScanValue(s, x, d + 1, rules).status)
  {
    hide ScanKey, ScanValue, ScanBody;
  }

  /** After a key and a value, the answer is that entry before the answer for
      the rest. */
  lemma EntryThenRest(s: bytes, p: nat, q: nat, isObject: bool, first: bool, d: nat, rules: Rules,
                      k: (bytes, Key), x: nat, n: Node, y: nat)
    requires p <= q < |s| && ScanKey(s, if first then q else q + 1, isObject, rules) == Good(k, x)
    requires ScanValue(s, x, d + 1, rules) == Good(n, y)
    ensures var rest := ScanBody(s, y, isObject, false, d, rules);
            var all := ScanEntry(s, p, q, isObject, first, d, rules);
            if rest.Bad? then all == rest
            else all.Good? && all.next == rest.next && all.value.Entry? && all.value.key == k.1
                 && all.value.value == n && all.value.rest == rest.value
  {
    hide ScanKey, ScanValue, ScanBody;
  }

  /** What the byte a container finds at the start of an entry, or instead of
      one, makes of the answer. */
  lemma BodyByte(s: bytes, p: nat, isObject: bool, first: bool, d: nat, rules: Rules)
    ensures var q := SkipSpace(s, p, rules.limits.maxTotal);
            var now := ScanBody(s, p, isObject, first, d, rules);
            match ReadAt(s, q, rules.limits.maxTotal)
            case AtEnd => now == Bad(InvalidJson)
            case OverLimit => now == Bad(Overflow)
            case Byte(c) =>
              if c == Closer(isObject) then now == Good(End(s[p..q]), q + 1)
              else if !first && c != COMMA then now == Bad(InvalidJson)
              else if !HasRoom(rules, d) then now == Bad(Overflow)
              else now == ScanEntry(s, p, q, isObject, first, d, rules)
  {
    hide SkipSpace, ScanEntry;
  }

  // ----- Values and whole texts -----

  /** The answer for a container whose opening bracket is read. */
  ghost function BoxAnswer(s: bytes, p: nat, isObject: bool, d: nat, rules: Rules): Out<Node> {
    if rules.limits.maxDepth != 0 && rules.limits.maxDepth <= d then Bad(Overflow)
    else match ScanBody(s, p, isObject, true, d, rules)
      case Bad(st) => Bad(st)
      case Good(b, q) => Good(Box(isObject, b), q)
  }

  /** What the byte that opens a value makes of the answer. */
  lemma NodeByte(s: bytes, p: nat, d: nat, rules: Rules)
    requires p < |s|
    ensures var c := s[p];
            var now := ScanNode(s, p, d, rules);
            && (c == QUOTE ==> now == ScanString(s, p + 1, rules))
            && (c == 116 ==> now == ScanLiteral(s, p, True, rules.limits.maxTotal))
            && (c == 102 ==> now == ScanLiteral(s, p, False, rules.limits.maxTotal))
            && (c == 110 ==> now == ScanLiteral(s, p, Null, rules.limits.maxTotal))
            && (c == MINUS || IsDigit(c) ==> now == ScanNumber(s, p, rules.limits))
            && (c != QUOTE && c != 123 && c != 91 && c != 116 && c != 102 && c != 110 && c != MINUS && !IsDigit(c) ==>
                  now == Bad(InvalidJson))
            && (c == 123 || c == 91 ==> now == BoxAnswer(s, p + 1, c == 123, d, rules))
  {
    hide ScanString, ScanLiteral, ScanNumber, ScanBody;
  }

  /** The end of a pass: nothing but whitespace may follow the value. */
  lemma DocumentEnds(text: bytes, rules: Rules, q: nat, n: Node)
    requires ScanValue(text, 0, 0, rules) == Good(n, q)
    ensures var e := ReadAt(text, SkipSpace(text, q, rules.limits.maxTotal), rules.limits.maxTotal);
            var r := ScanDocument(text, rules);
            if e == AtEnd then r.Good? && r.value.value == n else r == Bad(InvalidJson)
  {
    hide ScanValue, SkipSpace;
  }

  lemma ValueFails(text: bytes, rules: Rules)
    requires ScanValue(text, 0, 0, rules).Bad?
    ensures ScanDocument(text, rules) == Bad(ScanValue(text, 0, 0, rules).status)
  {
    hide ScanValue, SkipSpace;
  }
}
