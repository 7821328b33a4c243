/** The visitor without locations: string, number, literal, array, object and
    value, each proved to report exactly the walk over the tree it reads. */
module Visitors {
  import opened Bytes
  import opened Grammar
  import opened Scanner
  import opened StringProofs
  import opened Cursors
  import opened Trace
  import opened Steps
  import opened GrammarProofs
  import NumberCheck

  /** The size of the buffer that gathers plain bytes between chunks. */
  const PLAIN_CAPACITY: nat := 256

  /** The storage for one encoded code point. */
  const SCRATCH_CAPACITY: nat := 6

  /** The buffer for numbers that are not longer. */
  const NUMBER_BUFFER: nat := 256

  function TextKind(isKey: bool): Kind {
    if isKey then OfKey else OfString
  }

  function TextLimit(limits: Limits, isKey: bool): nat {
    if isKey then limits.maxKey else limits.maxString
  }

  /** A string was read as the scanner says, and reported. */
  ghost predicate TextVisited(r: Out<Chars>, kind: Kind, status: Status, pos: int, before: seq<Event>, after: seq<Event>) {
    if r.Bad? then status == r.status
    else status == Ok && pos == r.next && Flat(after) == Flat(before) + TextEvents(kind, Decode(r.value))
  }

  /** A value was read as the scanner says, and its walk reported. */
  ghost predicate NodeVisited(r: Out<Node>, status: Status, pos: int, before: seq<Event>, after: seq<Event>) {
    if r.Bad? then status == r.status
    else status == Ok && pos == r.next && Flat(after) == Flat(before) + Walk(r.value)
  }

  /** The limits a visit works with: absent ones are the defaults. */
  function EffectiveLimits(l: Limits): (e: Limits)
    ensures e.maxDepth != 0 && e.maxString != 0 && e.maxNumber != 0 && e.maxKey != 0
    ensures e.maxTotal == l.maxTotal
  {
    Limits(
      if l.maxDepth == 0 then 64 else l.maxDepth,
      if l.maxString == 0 then 1024 * 1024 else l.maxString,
      if l.maxNumber == 0 then 256 else l.maxNumber,
      if l.maxKey == 0 then 64 * 1024 else l.maxKey,
      l.maxTotal)
  }

  // ----- Escapes, shared by both visitors -----

  /** Appends a code point to scratch storage that keeps one byte of slack. */
  method Utf8Append(scratch: bytes, capacity: nat, codePoint: nat) returns (ok: bool, r: bytes)
    ensures ok <==> codePoint <= 0x10FFFF && |scratch| + |Utf8(codePoint)| + 2 <= capacity
    ensures ok ==> r == scratch + Utf8(codePoint)
    ensures !ok ==> r == scratch
  {
    r := scratch;
    var len;
    if codePoint <= 0x7F {
      len := 1;
    } else if codePoint <= 0x7FF {
      len := 2;
    } else if codePoint <= 0xFFFF {
      len := 3;
    } else if codePoint <= 0x10FFFF {
      len := 4;
    } else {
      return false, r;
    }
    if !(|scratch| + len + 1 + 1 <= capacity) {
      return false, r;
    }
    ok := true;
    if len == 1 {
      r := scratch + [codePoint];
    } else if len == 2 {
      r := scratch + [0xC0 + codePoint / 64, 0x80 + codePoint % 64];
    } else if len == 3 {
      r := scratch + [0xE0 + codePoint / 4096, 0x80 + codePoint / 64 % 64, 0x80 + codePoint % 64];
    } else {
      r := scratch + [0xF0 + codePoint / 262144, 0x80 + codePoint / 4096 % 64, 0x80 + codePoint / 64 % 64, 0x80 + codePoint % 64];
    }
  }

  /** The value of hex digits, most significant first. */
  ghost function HexPrefix(h: bytes): nat
    requires forall i :: 0 <= i < |h| ==> IsHex(h[i])
  {
    if h == [] then 0 else HexPrefix(h[..|h| - 1]) * 16 + HexDigit(h[|h| - 1])
  }

  lemma HexPrefixNil()
    ensures HexPrefix([]) == 0
  {
  }

  lemma HexPrefixMore(h: bytes, b: byte)
    requires IsHex(b) && forall i :: 0 <= i < |h| ==> IsHex(h[i])
    ensures HexPrefix(h + [b]) == HexPrefix(h) * 16 + HexDigit(b)
  {
    assert (h + [b])[..|h|] == h;
  }

  lemma HexPrefixIsValue(h: bytes)
    requires IsHex4(h)
    ensures HexPrefix(h) == HexValue(h)
  {
    assert h[..3][..2] == h[..2] && h[..2][..1] == h[..1] && h[..1][..0] == [];
    assert HexPrefix(h[..1]) == HexDigit(h[0]);
    assert HexPrefix(h[..2]) == HexPrefix(h[..1]) * 16 + HexDigit(h[1]);
    assert HexPrefix(h[..3]) == HexPrefix(h[..2]) * 16 + HexDigit(h[2]);
  }

  /** Reads the four hex digits of an escape. */
  method ReadHex4(cursor: Cursor) returns (status: Status, value: nat)
    requires cursor.Valid()
    modifies cursor
    ensures cursor.Sound() && (status == Ok ==> cursor.Valid())
    ensures var r := ScanHex(cursor.text, old(cursor.Pos()), 4, cursor.maxTotal);
            if r.Bad? then status == r.status
            else status == Ok && IsHex4(r.value) && value == HexValue(r.value) && cursor.Pos() == r.next
  {
    hide Cursor.Valid, Cursor.ValidAhead, Cursor.Sound, Cursor.SourceValid, Cursor.CanUnget, ScanHex, HexProgress, HexPrefix;
    ghost var start := cursor.Pos();
    ghost var all := ScanHex(cursor.text, start, 4, cursor.maxTotal);
    ghost var done: bytes := [];
    HexStarts(cursor.text, start, cursor.maxTotal);
    value := 0;
    assert HexPrefix([]) == 0 by { HexPrefixNil(); }
    var i := 0;
    while i < 4
      invariant 0 <= i <= 4 && |done| == i && cursor.Valid() && cursor.Pos() == start + i
      invariant forall j :: 0 <= j < i ==> IsHex(done[j])
      invariant value == HexPrefix(done)
      invariant HexProgress(all, ScanHex(cursor.text, start + i, 4 - i, cursor.maxTotal), done)
    {
      var ch := cursor.Getc();
      if ch == FAILED {
        HexFails(cursor.text, start + i, 4 - i, cursor.maxTotal, all, done);
        return Overflow, 0;
      }
      if ch == EOF {
        HexFails(cursor.text, start + i, 4 - i, cursor.maxTotal, all, done);
        return InvalidJson, 0;
      }
      var digit := HexDigit(ch);
      if digit < 0 {
        HexFails(cursor.text, start + i, 4 - i, cursor.maxTotal, all, done);
        return InvalidJson, 0;
      }
      HexStep(cursor.text, start + i, 4 - i, cursor.maxTotal, all, done, ch);
      value := value * 16 + digit;
      HexPrefixMore(done, ch);
      done := done + [ch];
      i := i + 1;
    }
    HexEnds(cursor.text, start + i, cursor.maxTotal, all, done);
    HexPrefixIsValue(done);
    status := Ok;
  }

  /** Reads the low half of a surrogate pair after its high half. */
  method ReadLowHalf(cursor: Cursor, ghost high: Item, highValue: nat) returns (status: Status, value: nat)
    requires cursor.Valid() && IsHigh(high) && highValue == HexValue(high.hex)
    modifies cursor
    ensures cursor.Sound() && (status == Ok ==> cursor.Valid())
    ensures var r := ScanLowHalf(cursor.text, old(cursor.Pos()), high, cursor.maxTotal);
            if r.Bad? then status == r.status
            else status == Ok && cursor.Pos() == r.next
                 && r.value.Two? && r.value.high == high && IsLow(r.value.low)
                 && value == PairValue(highValue, HexValue(r.value.low.hex))
  {
    hide Cursor.Valid, Cursor.ValidAhead, Cursor.Sound, Cursor.SourceValid, Cursor.CanUnget, ScanHex;
    value := 0;
    var ch := cursor.Getc();
    if ch != BACKSLASH {
      return InvalidJson, 0;
    }
    ch := cursor.Getc();
    if ch != 117 {
      return InvalidJson, 0;
    }
    var low;
    status, low := ReadHex4(cursor);
    if status != Ok {
      return;
    }
    if low < 0xDC00 || 0xDFFF < low {
      return InvalidJson, 0;
    }
    value := PairValue(highValue, low);
  }

  /** Reads the digits after a unicode escape's letter and encodes its code
      point, taking a surrogate pair together. */
  method ReadUnicode(cursor: Cursor, ghost rules: Rules) returns (status: Status, data: bytes)
    requires cursor.Valid() && rules.paired && rules.limits.maxTotal == cursor.maxTotal
    modifies cursor
    ensures cursor.Sound() && (status == Ok ==> cursor.Valid())
    ensures var r := ScanUnicode(cursor.text, old(cursor.Pos()), rules);
            if r.Bad? then status == r.status
            else status == Ok && cursor.Pos() == r.next && data == UnitBytes(r.value)
  {
    hide Cursor.Valid, Cursor.ValidAhead, Cursor.Sound, Cursor.SourceValid, ScanHex, ScanLowHalf, Utf8, HexValue;
    data := [];
    ghost var start := cursor.Pos();
    var codePoint;
    status, codePoint := ReadHex4(cursor);
    if status != Ok {
      return;
    }
    ghost var high := Unicode(ScanHex(cursor.text, start, 4, cursor.maxTotal).value);
    if 0xD800 <= codePoint <= 0xDBFF {
      status, codePoint := ReadLowHalf(cursor, high, codePoint);
      if status != Ok {
        return;
      }
    } else if 0xDC00 <= codePoint <= 0xDFFF {
      return InvalidJson, [];
    }
    var ok;
    ok, data := Utf8Append([], SCRATCH_CAPACITY, codePoint);
    assert [] + Utf8(codePoint) == Utf8(codePoint);
    status := if ok then Ok else InternalError;
  }

  /** Reads what follows a backslash. */
  method ReadEscape(cursor: Cursor, ghost rules: Rules) returns (status: Status, data: bytes)
    requires cursor.Valid() && rules.paired && rules.limits.maxTotal == cursor.maxTotal
    modifies cursor
    ensures cursor.Sound() && (status == Ok ==> cursor.Valid())
    ensures var r := ScanEscape(cursor.text, old(cursor.Pos()), rules);
            if r.Bad? then status == r.status
            else status == Ok && cursor.Pos() == r.next && data == UnitBytes(r.value)
  {
    hide Cursor.Valid, Cursor.ValidAhead, Cursor.Sound, Cursor.SourceValid, ScanUnicode;
    data := [];
    var ch := cursor.Getc();
    if ch == FAILED {
      return Overflow, [];
    }
    if ch == EOF {
      return InvalidJson, [];
    }
    if ch == QUOTE || ch == BACKSLASH || ch == 47 {
      return Ok, [ch];
    }
    if ch == 98 || ch == 102 || ch == 110 || ch == 114 || ch == 116 {
      return Ok, [if ch == 98 then 8 else if ch == 102 then 12 else if ch == 110 then 10 else if ch == 114 then 13 else 9];
    }
    if ch == 117 {
      status, data := ReadUnicode(cursor, rules);
      return;
    }
    status := InvalidJson;
  }

  // ----- The number buffer -----

  /** The capacity asked for a number and a terminator; at the largest limit it
      wraps to zero. */
  function NumberCapacity(maxNumber: nat): nat {
    (maxNumber + 1) % (SIZE_MAX + 1)
  }

  /** The bytes a number is stored in: the buffer at hand unless the capacity is
      larger. */
  function NumberStorage(maxNumber: nat): nat {
    if NUMBER_BUFFER < NumberCapacity(maxNumber) then NumberCapacity(maxNumber) else NUMBER_BUFFER
  }

  /** The number whose first byte is at `p` goes on past its storage, and no limit
      stops it there. */
  ghost predicate Overruns(s: bytes, p: nat, limits: Limits) {
    var n := NumberStorage(limits.maxNumber);
    && p + n < |s| && (forall i :: p < i <= p + n ==> IsNumberByte(s[i]))
    && !Exceeds(limits.maxTotal, p + n + 1) && !Exceeds(limits.maxNumber, n + 1)
  }

  /** No number can overrun its storage: the successor of the limit on numbers is
      a size, or the total limit stops every text before. */
  predicate StorageSuffices(limits: Limits) {
    0 < limits.maxNumber < SIZE_MAX || (limits.maxNumber == SIZE_MAX && 0 < limits.maxTotal <= NUMBER_BUFFER)
  }

  /** That is exactly when no number in any text overruns. */
  lemma StorageSufficesExactly(limits: Limits)
    requires 0 < limits.maxNumber <= SIZE_MAX
    ensures (forall s: bytes, p: nat :: !Overruns(s, p, limits)) <==> StorageSuffices(limits)
  {
    if !StorageSuffices(limits) {
      LongNumberOverruns(limits);
    }
  }

  /** One number, of `n` bytes and within the total limit, stays inside its storage
      exactly when the limit's successor is a size or it is no longer than the
      buffer at hand. */
  lemma NumberStaysInsideExactly(s: bytes, p: nat, n: nat, limits: Limits)
    requires 0 < n && p + n <= |s| && (forall i :: p < i < p + n ==> IsNumberByte(s[i]))
    requires p + n < |s| ==> !IsNumberByte(s[p + n])
    requires !Exceeds(limits.maxTotal, p + n) && 0 < limits.maxNumber <= SIZE_MAX
    ensures !Overruns(s, p, limits) <==> limits.maxNumber < SIZE_MAX || n <= NUMBER_BUFFER
  {
    var k := NumberStorage(limits.maxNumber);
    if n <= k && p + k < |s| {
      assert p < p + n <= p + k;
    }
  }

  /** A text of the grammar, within every limit, whose one number of 257 digits
      overruns its storage when the limit on numbers is the largest size. */
  lemma LongNumberOverruns(limits: Limits)
    requires limits.maxNumber == SIZE_MAX && !StorageSuffices(limits)
    ensures var s := seq(257, _ => 49);
            Overruns(s, 0, limits) && DocumentAccepted(s, Rules(limits, true, AnyLevel), Document([], Num(s), []))
  {
    var s: bytes := seq(257, _ => 49);
    var n := Number(false, s, [], NoExponent);
    assert NumberWellFormed(n) && NumberText(n) == s;
    assert [] + (s + []) == s;
  }

  /** `number` is stored so far, and the answer `all` is what reading on leads to. */
  ghost predicate Storing(s: bytes, p: nat, number: bytes, limits: Limits, all: Out<()>) {
    && RunState(s, p, number, limits, all) && 0 < |number| <= NumberStorage(limits.maxNumber)
    && (forall i :: p < i < p + |number| ==> IsNumberByte(s[i]))
  }

  lemma StoringFirst(s: bytes, p: nat, first: byte, limits: Limits)
    requires p < |s| && s[p] == first
    ensures Storing(s, p, [first], limits, ScanRun(s, p + 1, 1, limits))
  {
    hide ScanRun;
    RunStateFirst(s, p, first, limits);
  }

  /** One more number byte: a limit stops it, or the storage has no room for it,
      or it is stored. */
  lemma StoringNext(s: bytes, p: nat, number: bytes, limits: Limits, all: Out<()>, b: byte)
    requires Storing(s, p, number, limits, all)
    requires p + |number| < |s| && s[p + |number|] == b && IsNumberByte(b)
    ensures if Exceeds(limits.maxTotal, p + |number| + 1) || Exceeds(limits.maxNumber, |number| + 1) then
              all == Bad(Overflow) && !Overruns(s, p, limits)
            else if |number| == NumberStorage(limits.maxNumber) then Overruns(s, p, limits)
            else Storing(s, p, number + [b], limits, all)
  {
    hide ScanRun, NumberStorage;
    RunStateNext(s, p, number, limits, all, b);
  }

  lemma StoringStops(s: bytes, p: nat, number: bytes, limits: Limits, all: Out<()>)
    requires Storing(s, p, number, limits, all)
    requires p + |number| < |s| ==> !IsNumberByte(s[p + |number|])
    ensures all == Good((), p + |number|) && p + |number| <= |s| && s[p..p + |number|] == number && !Overruns(s, p, limits)
  {
    hide ScanRun, NumberStorage;
    RunStateStops(s, p, number, limits, all);
    assert p + |number| <= p + NumberStorage(limits.maxNumber);
  }

  /** Stores one more byte of a number, unless a limit stops it or there is no room. */
  method StoreByte(cursor: Cursor, limits: Limits, buffer: array<byte>, len: nat, b: byte, ghost p: nat, ghost all: Out<()>)
    returns (status: Status, overrun: bool)
    requires cursor.Valid() && cursor.maxTotal == limits.maxTotal && 0 < limits.maxNumber
    requires len <= buffer.Length == NumberStorage(limits.maxNumber) && Storing(cursor.text, p, buffer[..len], limits, all)
    requires p + len < |cursor.text| && cursor.text[p + len] == b && IsNumberByte(b) && cursor.Pos() == p + len + 1
    modifies buffer
    ensures overrun ==> Overruns(cursor.text, p, limits)
    ensures !overrun && status != Ok ==> Fails(all, status) && !Overruns(cursor.text, p, limits)
    ensures !overrun && status == Ok ==> len < buffer.Length && Storing(cursor.text, p, buffer[..len + 1], limits, all)
  {
    hide Cursor.Valid, Cursor.Pos, ScanRun, Overruns, NumberStorage, Storing;
    StoringNext(cursor.text, p, buffer[..len], limits, all, b);
    var over := cursor.CheckTotal();
    if over || limits.maxNumber <= len {
      return Overflow, false;
    }
    if buffer.Length <= len {
      return Ok, true;
    }
    ghost var stored := buffer[..len];
    buffer[len] := b;
    assert buffer[..len + 1] == stored + [b];
    return Ok, false;
  }

  /** Collects the run of number bytes after a first byte already read. `overrun`
      says that the program stores a byte outside its storage; what it does then
      is not defined. */
  method ReadNumber(cursor: Cursor, limits: Limits, first: byte) returns (status: Status, number: bytes, overrun: bool)
    requires cursor.Valid() && cursor.maxTotal == limits.maxTotal && 0 < limits.maxNumber <= SIZE_MAX
    requires 0 < cursor.Pos() && cursor.text[cursor.Pos() - 1] == first
    modifies cursor
    ensures overrun <==> Overruns(cursor.text, old(cursor.Pos()) - 1, limits)
    ensures !overrun ==> cursor.Sound() && (status == Ok ==> cursor.Valid())
    ensures var r := ScanRun(cursor.text, old(cursor.Pos()), 1, limits);
            !overrun ==>
              if r.Bad? then status == r.status
              else status == Ok && cursor.Pos() == r.next <= |cursor.text|
                   && cursor.text[old(cursor.Pos()) - 1..r.next] == number
  {
    hide Cursor.Valid, Cursor.ValidAhead, Cursor.Sound, Cursor.SourceValid, Cursor.CanUnget, ScanRun, Cursor.Pos;
    hide Overruns, NumberStorage, Storing, IsNumberByte;
    ghost var s, start := cursor.text, cursor.Pos() - 1;
    ghost var all := ScanRun(s, start + 1, 1, limits);
    status, number, overrun := Ok, [], false;
    StorageIsEnoughToStart(limits.maxNumber);
    var buffer := new byte[NumberStorage(limits.maxNumber)];
    var len := 0;
    buffer[len] := first;
    len := len + 1;
    assert buffer[..len] == [first];
    StoringFirst(s, start, first, limits);
    var ch := cursor.GetcLookahead();
    while 0 <= ch && IsNumberByte(ch)
      invariant status == Ok && !overrun && cursor.Valid() && start + len <= |s| && (0 <= ch ==> cursor.CanUnget())
      invariant if ch < 0 then cursor.Pos() == start + len == |s|
                else start + len < |s| && s[start + len] == ch && cursor.Pos() == start + len + 1
      invariant 1 <= len <= buffer.Length && Storing(s, start, buffer[..len], limits, all)
      decreases |s| - cursor.Pos(), if ch < 0 then 0 else 1
    {
      status, overrun := StoreByte(cursor, limits, buffer, len, ch, start, all);
      if status != Ok || overrun {
        return;
      }
      len := len + 1;
      ch := cursor.GetcLookahead();
    }
    StoringStops(s, start, buffer[..len], limits, all);
    if 0 <= ch {
      cursor.Ungetc(ch);
    }
    number := buffer[..len];
  }

  lemma StorageIsEnoughToStart(maxNumber: nat)
    ensures NUMBER_BUFFER <= NumberStorage(maxNumber)
  {
  }

  lemma NeverOverruns(s: bytes, p: nat, limits: Limits)
    requires StorageSuffices(limits)
    ensures !Overruns(s, p, limits)
  {
  }

  /** Reads exactly the bytes `rest`. */
  method ReadWord(cursor: Cursor, rest: bytes) returns (status: Status)
    requires cursor.Valid()
    modifies cursor
    ensures cursor.Sound() && (status == Ok ==> cursor.Valid())
    ensures var r := ScanWord(cursor.text, old(cursor.Pos()), rest, cursor.maxTotal);
            if r.Bad? then status == r.status else status == Ok && cursor.Pos() == r.next
  {
    hide Cursor.Valid, Cursor.ValidAhead, Cursor.Sound, Cursor.SourceValid, Cursor.CanUnget, ScanWord;
    ghost var start := cursor.Pos();
    assert rest[0..] == rest;
    var i := 0;
    while i < |rest|
      invariant 0 <= i <= |rest| && cursor.Valid() && cursor.Pos() == start + i
      invariant ScanWord(cursor.text, start, rest, cursor.maxTotal) == ScanWord(cursor.text, start + i, rest[i..], cursor.maxTotal)
    {
      WordStep(cursor.text, start + i, rest, i, cursor.maxTotal);
      var ch := cursor.Getc();
      if ch == FAILED {
        return Overflow;
      }
      if ch != rest[i] {
        return InvalidJson;
      }
      i := i + 1;
    }
    WordEnd(cursor.text, start + i, rest, cursor.maxTotal);
    status := Ok;
  }

  /** Between two traces, exactly these bytes of a text were reported. */
  ghost predicate Sent(before: seq<Event>, after: seq<Event>, kind: Kind, data: bytes) {
    Flat(after) == Flat(before) + Explode(kind, data)
  }

  lemma SentNone(t: seq<Event>, kind: Kind)
    ensures Sent(t, t, kind, [])
  {
  }

  lemma SentMore(a: seq<Event>, b: seq<Event>, c: seq<Event>, kind: Kind, x: bytes, y: bytes)
    requires Sent(a, b, kind, x) && Sent(b, c, kind, y)
    ensures Sent(a, c, kind, x + y)
  {
    hide Flat, Explode;
    ExplodeConcat(kind, x, y);
    var f, g := Explode(kind, x), Explode(kind, y);
    assert Flat(a) + f + g == Flat(a) + (f + g);
  }

  lemma GatherStep(sent: bytes, buffer: bytes, before: bytes, data: bytes, offset: nat, take: nat)
    requires offset + take <= |data| && sent + buffer == before + data[..offset]
    ensures sent + (buffer + data[offset..offset + take]) == before + data[..offset + take]
  {
    var piece := data[offset..offset + take];
    assert data[..offset + take] == data[..offset] + piece;
    assert sent + (buffer + piece) == (sent + buffer) + piece;
    assert before + (data[..offset] + piece) == (before + data[..offset]) + piece;
  }

  lemma PlainRunOf(s: bytes, p: nat, n: nat, limit: nat, rules: Rules, span: bytes, k: nat)
    requires rules.paired && p + |span| <= |s| && span == s[p..p + |span|] && 0 < k <= |span|
    requires forall i :: 0 <= i < k ==> IsPlain(span[i])
    ensures if Exceeds(rules.limits.maxTotal, p + k) || Exceeds(limit, n + k) then
              ScanChars(s, p, n, limit, rules) == Bad(Overflow)
            else
              CharsProgress(ScanChars(s, p, n, limit, rules), ScanChars(s, p + k, n + k, limit, rules), span[..k])
  {
    hide ScanChars, CharsProgress;
    forall i | p <= i < p + k ensures IsPlain(s[i]) {
      assert span[i - p] == s[i];
    }
    assert span[..k] == s[p..p + k];
    PlainRun(s, p, n, limit, rules, k);
  }

  lemma Regroup(done: bytes, was: bytes, data: bytes, sent: bytes, left: bytes)
    requires sent + left == was + data
    ensures done + was + data == done + sent + left
  {
    assert done + was + data == done + (was + data);
    assert done + sent + left == done + (sent + left);
  }

  /** Between two traces, exactly these events were reported. */
  ghost predicate Reported(before: seq<Event>, after: seq<Event>, t: seq<Event>) {
    Flat(after) == Flat(before) + t
  }

  lemma ReportedNone(t: seq<Event>)
    ensures Reported(t, t, [])
  {
  }

  lemma ReportedFirst(t: seq<Event>, w: seq<Event>)
    requires Reported([], t, w)
    ensures Flat(t) == w
  {
    assert Flat([]) + w == w;
  }

  lemma ReportedMore(a: seq<Event>, b: seq<Event>, c: seq<Event>, x: seq<Event>, y: seq<Event>)
    requires Reported(a, b, x) && Reported(b, c, y)
    ensures Reported(a, c, x + y)
  {
    hide Flat;
    assert Flat(a) + x + y == Flat(a) + (x + y);
  }

  /** The answer `now`, after the events `done`, leads to the answer `all`. */
  ghost predicate BodyProgress(all: Out<Body>, now: Out<Body>, done: seq<Event>) {
    if all.Bad? then now == all
    else now.Good? && now.next == all.next && WalkBody(all.value) == done + WalkBody(now.value)
  }

  lemma BodyStarts(all: Out<Body>)
    ensures BodyProgress(all, all, [])
  {
  }

  lemma BodyFails(all: Out<Body>, now: Out<Body>, done: seq<Event>)
    requires BodyProgress(all, now, done) && now.Bad?
    ensures all == now
  {
  }

  lemma BodyEnds(all: Out<Body>, now: Out<Body>, done: seq<Event>)
    requires BodyProgress(all, now, done) && now.Good? && now.value.End?
    ensures all.Good? && all.next == now.next && WalkBody(all.value) == done
  {
    assert done + [] == done;
  }

  lemma BodyEntry(s: bytes, p: nat, q: nat, isObject: bool, first: bool, d: nat, rules: Rules,
                  k: (bytes, Key), x: nat, n: Node, y: nat, all: Out<Body>, done: seq<Event>)
    requires p <= q < |s| && ScanKey(s, if first then q else q + 1, isObject, rules) == Good(k, x)
    requires ScanValue(s, x, d + 1, rules) == Good(n, y)
    requires BodyProgress(all, ScanEntry(s, p, q, isObject, first, d, rules), done)
    ensures BodyProgress(all, ScanBody(s, y, isObject, false, d, rules), done + (KeyEvents(k.1) + Walk(n)))
  {
    hide ScanKey, ScanValue, ScanEntry, ScanBody, KeyEvents, Walk;
    EntryThenRest(s, p, q, isObject, first, d, rules, k, x, n, y);
    var rest := ScanBody(s, y, isObject, false, d, rules);
    if rest.Good? {
      var w := WalkBody(rest.value);
      assert done + (KeyEvents(k.1) + Walk(n) + w) == done + (KeyEvents(k.1) + Walk(n)) + w;
    }
  }

  lemma BoxReported(isObject: bool, b: Body, a: seq<Event>, begun: seq<Event>, body: seq<Event>, end: seq<Event>)
    requires Flat(begun) == Flat(a) + [OpenEvent(isObject)] && Reported(begun, body, WalkBody(b))
    requires Flat(end) == Flat(body) + [CloseEvent(isObject)]
    ensures Flat(end) == Flat(a) + Walk(Box(isObject, b))
  {
    hide Flat, WalkBody;
    assert Flat(a) + [OpenEvent(isObject)] + WalkBody(b) + [CloseEvent(isObject)]
        == Flat(a) + ([OpenEvent(isObject)] + WalkBody(b) + [CloseEvent(isObject)]);
  }

  lemma WalkOfString(r: Out<Chars>)
    ensures r.Good? ==> Walk(Str(r.value)) == TextEvents(OfString, Decode(r.value))
  {
  }

  /** Inside a container opened before `start` and read up to `p`, the entries
      so far being reported as `done`. */
  ghost predicate InBody(s: bytes, start: nat, p: nat, isObject: bool, first: bool, d: nat, rules: Rules,
                         before: seq<Event>, begun: seq<Event>, now: seq<Event>, done: seq<Event>) {
    && Reported(before, begun, [OpenEvent(isObject)]) && Reported(begun, now, done)
    && BodyProgress(ScanBody(s, start, isObject, true, d, rules), ScanBody(s, p, isObject, first, d, rules), done)
    && (rules.limits.maxDepth == 0 || d < rules.limits.maxDepth)
  }

  lemma InBodyStarts(s: bytes, start: nat, isObject: bool, d: nat, rules: Rules, before: seq<Event>, begun: seq<Event>)
    requires Reported(before, begun, [OpenEvent(isObject)])
    requires rules.limits.maxDepth == 0 || d < rules.limits.maxDepth
    ensures InBody(s, start, start, isObject, true, d, rules, before, begun, begun, [])
  {
    hide Reported, BodyProgress, ScanBody;
    ReportedNone(begun);
    BodyStarts(ScanBody(s, start, isObject, true, d, rules));
  }

  lemma InBodyFails(s: bytes, start: nat, p: nat, isObject: bool, first: bool, d: nat, rules: Rules,
                    before: seq<Event>, begun: seq<Event>, now: seq<Event>, done: seq<Event>,
                    st: Status, pos: int, after: seq<Event>)
    requires InBody(s, start, p, isObject, first, d, rules, before, begun, now, done)
    requires ScanBody(s, p, isObject, first, d, rules).Bad? && ScanBody(s, p, isObject, first, d, rules).status == st
    ensures NodeVisited(BoxAnswer(s, start, isObject, d, rules), st, pos, before, after)
  {
    hide Reported, BodyProgress, ScanBody;
    BodyFails(ScanBody(s, start, isObject, true, d, rules), ScanBody(s, p, isObject, first, d, rules), done);
  }

  lemma InBodyEnds(s: bytes, start: nat, p: nat, isObject: bool, first: bool, d: nat, rules: Rules,
                   before: seq<Event>, begun: seq<Event>, now: seq<Event>, done: seq<Event>, pos: nat, after: seq<Event>)
    requires InBody(s, start, p, isObject, first, d, rules, before, begun, now, done)
    requires var r := ScanBody(s, p, isObject, first, d, rules); r.Good? && r.value.End? && r.next == pos
    requires Reported(now, after, [CloseEvent(isObject)])
    ensures NodeVisited(BoxAnswer(s, start, isObject, d, rules), Ok, pos, before, after)
  {
    hide BodyProgress, ScanBody, Flat, Walk, WalkBody;
    var all := ScanBody(s, start, isObject, true, d, rules);
    BodyEnds(all, ScanBody(s, p, isObject, first, d, rules), done);
    BoxReported(isObject, all.value, before, begun, now, after);
  }

  lemma InBodyEntry(s: bytes, start: nat, p: nat, isObject: bool, first: bool, d: nat, rules: Rules,
                    before: seq<Event>, begun: seq<Event>, now: seq<Event>, done: seq<Event>,
                    q: nat, k: (bytes, Key), x: nat, n: Node, y: nat, after: seq<Event>)
    requires InBody(s, start, p, isObject, first, d, rules, before, begun, now, done)
    requires p <= q < |s| && ScanBody(s, p, isObject, first, d, rules) == ScanEntry(s, p, q, isObject, first, d, rules)
    requires ScanKey(s, if first then q else q + 1, isObject, rules) == Good(k, x)
    requires ScanValue(s, x, d + 1, rules) == Good(n, y)
    requires Reported(now, after, KeyEvents(k.1) + Walk(n))
    ensures InBody(s, start, y, isObject, false, d, rules, before, begun, after, done + (KeyEvents(k.1) + Walk(n)))
  {
    hide Reported, BodyProgress, ScanBody, ScanEntry, ScanKey, ScanValue, KeyEvents, Walk;
    BodyEntry(s, p, q, isObject, first, d, rules, k, x, n, y, ScanBody(s, start, isObject, true, d, rules), done);
    ReportedMore(begun, now, after, done, KeyEvents(k.1) + Walk(n));
  }

  lemma DepthFails(s: bytes, start: nat, isObject: bool, d: nat, rules: Rules, pos: int, before: seq<Event>, after: seq<Event>)
    requires rules.limits.maxDepth != 0 && rules.limits.maxDepth <= d
    ensures NodeVisited(BoxAnswer(s, start, isObject, d, rules), Overflow, pos, before, after)
  {
  }

  lemma ArrayHasNoKey(s: bytes, p: nat, rules: Rules)
    ensures ScanKey(s, p, false, rules) == Good(([], NoKey), p)
    ensures KeyEvents(NoKey) == []
  {
  }

  lemma StringReported(kind: Kind, a: seq<Event>, b: seq<Event>, c: seq<Event>, d: seq<Event>, sent: bytes)
    requires Flat(b) == Flat(a) + [Begin(kind)] && Sent(b, c, kind, sent) && Flat(d) == Flat(c) + [Finish(kind)]
    ensures Flat(d) == Flat(a) + TextEvents(kind, sent)
  {
    hide Explode, Flat;
    assert Flat(a) + [Begin(kind)] + Explode(kind, sent) + [Finish(kind)]
        == Flat(a) + ([Begin(kind)] + Explode(kind, sent) + [Finish(kind)]);
  }

  // ----- The visitor -----

  class Visitor {
    const cursor: Cursor
    const limits: Limits
    var depth: nat
    var events: seq<Event>

    ghost const rules: Rules

    ghost predicate Configured()
      reads {}
    {
      && cursor.counted && cursor.maxTotal == limits.maxTotal && rules == Rules(limits, true, AnyLevel)
      && limits.maxDepth != 0 && limits.maxString != 0 && StorageSuffices(limits) && limits.maxKey != 0
    }

    constructor (cursor: Cursor, limits: Limits)
      requires cursor.counted && cursor.maxTotal == limits.maxTotal && StorageSuffices(EffectiveLimits(limits))
      ensures Configured() && this.cursor == cursor && depth == 0 && events == []
      ensures this.limits == EffectiveLimits(limits)
    {
      this.cursor := cursor;
      this.limits := EffectiveLimits(limits);
      rules := Rules(EffectiveLimits(limits), true, AnyLevel);
      depth, events := 0, [];
    }

    method Emit(e: Event)
      requires !e.Chunk?
      modifies this`events
      ensures Flat(events) == Flat(old(events)) + [e]
      ensures Reported(old(events), events, [e])
    {
      FlatAppend(events, e);
      events := events + [e];
    }

    method EmitChunk(kind: Kind, data: bytes)
      modifies this`events
      ensures Sent(old(events), events, kind, data)
    {
      if |data| == 0 {
        return;
      }
      FlatAppend(events, Chunk(kind, data));
      events := events + [Chunk(kind, data)];
    }

    /** Adds bytes to the buffer, reporting it whenever it is full. */
    method Gather(kind: Kind, plain: bytes, data: bytes) returns (plain': bytes, ghost sent: bytes)
      requires |plain| < PLAIN_CAPACITY
      modifies this`events
      ensures |plain'| < PLAIN_CAPACITY && sent + plain' == plain + data
      ensures Sent(old(events), events, kind, sent)
    {
      hide Sent;
      plain', sent := plain, [];
      var offset := 0;
      SentNone(events, kind);
      while offset < |data|
        invariant 0 <= offset <= |data| && |plain'| < PLAIN_CAPACITY
        invariant sent + plain' == plain + data[..offset]
        invariant Sent(old(events), events, kind, sent)
      {
        var take := |data| - offset;
        if PLAIN_CAPACITY < take {
          take := PLAIN_CAPACITY;
        }
        if PLAIN_CAPACITY - |plain'| < take {
          take := PLAIN_CAPACITY - |plain'|;
        }
        GatherStep(sent, plain', plain, data, offset, take);
        plain' := plain' + data[offset..offset + take];
        offset := offset + take;
        if |plain'| == PLAIN_CAPACITY {
          ghost var was := events;
          EmitChunk(kind, plain');
          SentMore(old(events), was, events, kind, sent, plain');
          sent := sent + plain';
          plain' := [];
        }
      }
      assert data[..offset] == data;
    }

    /** Passes on a run of plain bytes: directly, or through the buffer when it
        already holds some. `sent` are the bytes reported meanwhile. */
    method VisitPlainChunk(kind: Kind, limit: nat, plain: bytes, decoded: nat, data: bytes)
      returns (status: Status, plain': bytes, decoded': nat, ghost sent: bytes)
      requires Configured() && cursor.Valid() && |plain| < PLAIN_CAPACITY && data != []
      modifies this`events, cursor`totalBytes
      ensures cursor.Sound() && (status == Ok ==> cursor.ValidAhead(|data|))
      ensures status == if Exceeds(limits.maxTotal, cursor.Pos() + |data|) || Exceeds(limit, decoded + |data|) then Overflow else Ok
      ensures status == Ok ==>
                && decoded' == decoded + |data| && |plain'| < PLAIN_CAPACITY && sent + plain' == plain + data
                && Sent(old(events), events, kind, sent)
    {
      hide Cursor.Valid, Cursor.ValidAhead, Cursor.Sound, Cursor.SourceValid, Sent;
      plain', decoded', sent := plain, decoded, [];
      var ok := cursor.CountSpan(|data|);
      if !ok {
        return Overflow, plain', decoded', sent;
      }
      decoded' := decoded + |data|;
      if limit != 0 && limit < decoded' {
        return Overflow, plain', decoded', sent;
      }
      status := Ok;
      if |plain| == 0 {
        EmitChunk(kind, data);
        sent := data;
        assert data + [] == [] + data;
      } else {
        plain', sent := Gather(kind, plain, data);
      }
    }

    /** Passes on the first `k` bytes of a span, which are plain. */
    method TakePlain(kind: Kind, limit: nat, plain: bytes, decoded: nat, span: bytes, k: nat,
                     ghost all: Out<Chars>, ghost done: bytes)
      returns (status: Status, plain': bytes, decoded': nat, ghost sent: bytes)
      requires Configured() && cursor.Valid() && |plain| < PLAIN_CAPACITY
      requires cursor.SpanHere(span) && 0 < k <= |span| && (forall i :: 0 <= i < k ==> IsPlain(span[i]))
      requires CharsProgress(all, ScanChars(cursor.text, cursor.Pos(), decoded, limit, rules), done + plain)
      modifies this`events, cursor
      ensures cursor.Sound()
      ensures status == Ok ==>
                && cursor.Valid() && |plain'| < PLAIN_CAPACITY && cursor.Pos() == old(cursor.Pos()) + k
                && CharsProgress(all, ScanChars(cursor.text, cursor.Pos(), decoded', limit, rules), done + sent + plain')
                && Sent(old(events), events, kind, sent)
      ensures status != Ok ==> Fails(all, status)
    {
      hide Cursor.Valid, Cursor.ValidAhead, Cursor.Sound, Cursor.SourceValid, Cursor.SpanAvailable, Sent, CharsProgress, ScanChars;
      ghost var p := cursor.Pos();
      PlainRunOf(cursor.text, p, decoded, limit, rules, span, k);
      status, plain', decoded', sent := VisitPlainChunk(kind, limit, plain, decoded, span[..k]);
      if status != Ok {
        ProgressBad(all, ScanChars(cursor.text, p, decoded, limit, rules), done + plain);
        return;
      }
      CharsProgressTrans(all, ScanChars(cursor.text, p, decoded, limit, rules), ScanChars(cursor.text, p + k, decoded', limit, rules),
                         done + plain, span[..k]);
      Regroup(done, plain, span[..k], sent, plain');
      SpanShorter(cursor, |span|, k);
      cursor.AdvanceSpan(k);
    }

    /** Passes on the plain bytes at hand. */
    method VisitSpans(kind: Kind, limit: nat, plain: bytes, decoded: nat, ghost all: Out<Chars>, ghost done: bytes)
      returns (status: Status, plain': bytes, decoded': nat, ghost sent: bytes)
      requires Configured() && cursor.Valid() && |plain| < PLAIN_CAPACITY
      requires CharsProgress(all, ScanChars(cursor.text, cursor.Pos(), decoded, limit, rules), done + plain)
      modifies this`events, cursor
      ensures cursor.Sound()
      ensures status == Ok ==>
                && cursor.Valid() && |plain'| < PLAIN_CAPACITY && old(cursor.Pos()) <= cursor.Pos()
                && CharsProgress(all, ScanChars(cursor.text, cursor.Pos(), decoded', limit, rules), done + sent + plain')
                && Sent(old(events), events, kind, sent)
      ensures status != Ok ==> Fails(all, status)
    {
      hide Cursor.SpanHere;
      hide Cursor.Valid, Cursor.ValidAhead, Cursor.Sound, Cursor.SourceValid, Cursor.SpanAvailable, Sent, CharsProgress, ScanChars;
      plain', decoded', sent, status := plain, decoded, [], Ok;
      SentNone(events, kind);
      assert done + [] == done;
      var span := cursor.PlainSpan();
      while span != []
        invariant status == Ok && cursor.Valid() && |plain'| < PLAIN_CAPACITY && old(cursor.Pos()) <= cursor.Pos()
        invariant cursor.SpanHere(span)
        invariant CharsProgress(all, ScanChars(cursor.text, cursor.Pos(), decoded', limit, rules), done + sent + plain')
        invariant Sent(old(events), events, kind, sent)
        decreases |cursor.text| - cursor.Pos()
      {
        var k := PlainPrefix(span);
        if k == 0 {
          break;
        }
        ghost var was, more := events, [];
        status, plain', decoded', more := TakePlain(kind, limit, plain', decoded', span, k, all, done + sent);
        if status != Ok {
          return;
        }
        SentMore(old(events), was, events, kind, sent, more);
        assert done + (sent + more) == done + sent + more;
        sent := sent + more;
        if k < |span| {
          break;
        }
        span := cursor.PlainSpan();
      }
    }

    /** Reads one byte of a string, or one escape, and the quote that ends it. */
    method VisitStringByte(kind: Kind, limit: nat, plain: bytes, decoded: nat, ghost all: Out<Chars>, ghost done: bytes)
      returns (status: Status, ended: bool, plain': bytes, decoded': nat, ghost sent: bytes)
      requires Configured() && cursor.Valid() && |plain| < PLAIN_CAPACITY
      requires CharsProgress(all, ScanChars(cursor.text, cursor.Pos(), decoded, limit, rules), done + plain)
      modifies this`events, cursor
      ensures cursor.Sound()
      ensures status == Ok ==>
                && cursor.Valid() && |plain'| < PLAIN_CAPACITY && old(cursor.Pos()) < cursor.Pos()
                && Sent(old(events), events, kind, sent)
                && (if ended then all.Good? && all.next == cursor.Pos() && Decode(all.value) == done + sent && plain' == []
                    else CharsProgress(all, ScanChars(cursor.text, cursor.Pos(), decoded', limit, rules), done + sent + plain'))
      ensures status != Ok ==> Fails(all, status)
    {
      hide Cursor.Valid, Cursor.ValidAhead, Cursor.Sound, Cursor.SourceValid, Cursor.CanUnget;
      hide Sent, CharsProgress, ScanChars, ScanEscape, ScanUnit, UnitBytes;
      ghost var p := cursor.Pos();
      ghost var now := ScanChars(cursor.text, p, decoded, limit, rules);
      plain', decoded', sent, ended := plain, decoded, [], false;
      SentNone(events, kind);
      ByteDecides(cursor.text, p, decoded, limit, rules);
      var ch := cursor.Getc();
      if ch == FAILED || ch == EOF || ch < 0x20 {
        ProgressBad(all, now, done + plain);
        status := if ch == FAILED then Overflow else InvalidJson;
        return;
      }
      if ch == QUOTE {
        EmitChunk(kind, plain);
        ProgressDone(all, now, done + plain);
        status, ended, plain', sent := Ok, true, [], plain;
        return;
      }
      if ch != BACKSLASH {
        status, plain', decoded', sent := VisitPlainByte(kind, limit, plain, decoded, ch, p, all, done);
        return;
      }
      ghost var was := events;
      EmitChunk(kind, plain);
      var data;
      status, data := ReadEscape(cursor, rules);
      if status != Ok {
        ProgressBad(all, now, done + plain);
        return;
      }
      UnitStep(cursor.text, p, decoded, limit, rules, ScanUnit(cursor.text, p, rules).value, cursor.Pos());
      decoded' := decoded + |data|;
      if limit != 0 && limit < decoded' {
        ProgressBad(all, now, done + plain);
        return Overflow, false, [], decoded', sent;
      }
      ghost var mid := events;
      EmitChunk(kind, data);
      SentMore(was, mid, events, kind, plain, data);
      CharsProgressTrans(all, now, ScanChars(cursor.text, cursor.Pos(), decoded', limit, rules), done + plain, data);
      plain', sent := [], plain + data;
      assert done + plain + data == done + sent + [];
    }

    /** A plain byte read on its own joins the buffer. */
    method VisitPlainByte(kind: Kind, limit: nat, plain: bytes, decoded: nat, b: byte,
                          ghost p: nat, ghost all: Out<Chars>, ghost done: bytes)
      returns (status: Status, plain': bytes, decoded': nat, ghost sent: bytes)
      requires Configured() && |plain| < PLAIN_CAPACITY && p < |cursor.text| && cursor.text[p] == b && IsPlain(b)
      requires !Exceeds(limits.maxTotal, p + 1)
      requires CharsProgress(all, ScanChars(cursor.text, p, decoded, limit, rules), done + plain)
      modifies this`events
      ensures status == Ok ==>
                && |plain'| < PLAIN_CAPACITY && Sent(old(events), events, kind, sent)
                && CharsProgress(all, ScanChars(cursor.text, p + 1, decoded', limit, rules), done + sent + plain')
      ensures status != Ok ==> Fails(all, status)
    {
      hide Sent, CharsProgress, ScanChars;
      sent := [];
      SentNone(events, kind);
      plain' := plain + [b];
      decoded' := decoded + 1;
      PlainStep(cursor.text, p, decoded, limit, rules);
      if limit != 0 && limit < decoded' {
        ProgressBad(all, ScanChars(cursor.text, p, decoded, limit, rules), done + plain);
        return Overflow, plain', decoded', sent;
      }
      status := Ok;
      CharsProgressTrans(all, ScanChars(cursor.text, p, decoded, limit, rules), ScanChars(cursor.text, p + 1, decoded', limit, rules),
                         done + plain, [b]);
      assert done + plain + [b] == done + [] + plain' == done + plain' + [];
      if |plain'| == PLAIN_CAPACITY {
        EmitChunk(kind, plain');
        sent, plain' := plain', [];
      }
    }

    /** A string or object key, its opening quote already read. */
    method VisitString(isKey: bool) returns (status: Status)
      requires Configured() && cursor.Valid()
      modifies this`events, cursor
      ensures cursor.Sound() && (status == Ok ==> cursor.Valid())
      ensures TextVisited(ScanChars(cursor.text, old(cursor.Pos()), 0, TextLimit(limits, isKey), rules), TextKind(isKey),
                          status, cursor.Pos(), old(events), events)
    {
      hide Cursor.Valid, Cursor.ValidAhead, Cursor.Sound, Cursor.SourceValid, Sent, CharsProgress, ScanChars;
      var kind, limit := TextKind(isKey), TextLimit(limits, isKey);
      ghost var all := ScanChars(cursor.text, cursor.Pos(), 0, limit, rules);
      var plain, decoded := [], 0;
      ghost var sent: bytes := [];
      Emit(Begin(kind));
      ghost var begun := events;
      SentNone(events, kind);
      EmptyProgress(all);
      assert sent + plain == [];
      var ended := false;
      while !ended
        invariant cursor.Valid() && |plain| < PLAIN_CAPACITY && Sent(begun, events, kind, sent)
        invariant Flat(begun) == Flat(old(events)) + [Begin(kind)]
        invariant if ended then all.Good? && all.next == cursor.Pos() && Decode(all.value) == sent
                  else CharsProgress(all, ScanChars(cursor.text, cursor.Pos(), decoded, limit, rules), sent + plain)
        decreases |cursor.text| - cursor.Pos(), if ended then 0 else 1
      {
        ghost var was, more := events, [];
        status, plain, decoded, more := VisitSpans(kind, limit, plain, decoded, all, sent);
        if status != Ok {
          return;
        }
        SentMore(begun, was, events, kind, sent, more);
        sent := sent + more;
        was := events;
        status, ended, plain, decoded, more := VisitStringByte(kind, limit, plain, decoded, all, sent);
        if status != Ok {
          return;
        }
        SentMore(begun, was, events, kind, sent, more);
        sent := sent + more;
      }
      status := Ok;
      ghost var body := events;
      Emit(Finish(kind));
      StringReported(kind, old(events), begun, body, events, sent);
    }

    /** A number whose first byte is already read. */
    method VisitNumber(first: byte) returns (status: Status)
      requires Configured() && cursor.Valid() && 0 < cursor.Pos() && cursor.text[cursor.Pos() - 1] == first
      modifies this`events, cursor
      ensures cursor.Sound() && (status == Ok ==> cursor.Valid())
      ensures NodeVisited(ScanNumber(cursor.text, old(cursor.Pos()) - 1, limits), status, cursor.Pos(), old(events), events)
    {
      hide Cursor.Valid, Cursor.ValidAhead, Cursor.Sound, Cursor.SourceValid, Cursor.CanUnget;
      hide Sent, ScanRun, IsNumber, Flat, TextEvents, Overruns;
      Emit(Begin(OfNumber));
      ghost var begun := events;
      NeverOverruns(cursor.text, cursor.Pos() - 1, limits);
      var buffer, overrun;
      status, buffer, overrun := ReadNumber(cursor, limits, first);
      if status != Ok {
        return;
      }
      var ok := NumberCheck.IsValidJsonNumber(buffer);
      if !ok {
        return InvalidJson;
      }
      EmitChunk(OfNumber, buffer);
      ghost var body := events;
      Emit(Finish(OfNumber));
      StringReported(OfNumber, old(events), begun, body, events, buffer);
    }

    /** A literal whose first byte is already read. */
    method VisitLiteral(first: byte, rest: bytes, isBool: bool, ghost word: Word) returns (status: Status)
      requires Configured() && cursor.Valid() && 0 < cursor.Pos()
      requires WordText(word) == [first] + rest && isBool == !word.Null?
      modifies this`events, cursor
      ensures cursor.Sound() && (status == Ok ==> cursor.Valid())
      ensures NodeVisited(ScanLiteral(cursor.text, old(cursor.Pos()) - 1, word, limits.maxTotal), status, cursor.Pos(), old(events), events)
    {
      hide Cursor.Valid, Cursor.ValidAhead, Cursor.Sound, Cursor.SourceValid, ScanWord, Flat;
      assert WordText(word)[0] == first && WordText(word)[1..] == rest;
      status := ReadWord(cursor, rest);
      if status != Ok {
        return;
      }
      if isBool {
        Emit(Boolean(first == 116));
      } else {
        Emit(NullValue);
      }
    }

    /** An object key and the colon after it. */
    method VisitKey() returns (status: Status)
      requires Configured() && cursor.Valid()
      modifies this`events, cursor
      ensures cursor.Sound() && (status == Ok ==> cursor.Valid())
      ensures var r := ScanKey(cursor.text, old(cursor.Pos()), true, rules);
              if r.Bad? then status == r.status
              else status == Ok && cursor.Pos() == r.next && Reported(old(events), events, KeyEvents(r.value.1))
    {
      hide Cursor.Valid, Cursor.ValidAhead, Cursor.Sound, Cursor.SourceValid, ScanChars, SkipSpace, Flat, Decode;
      var ch := cursor.PeekNonspace();
      if ch != QUOTE {
        return InvalidJson;
      }
      ch := cursor.Getc();
      status := VisitString(true);
      if status != Ok {
        return;
      }
      ch := cursor.PeekNonspace();
      if ch != COLON {
        return InvalidJson;
      }
      ch := cursor.Getc();
    }

    method VisitArray() returns (status: Status)
      requires Configured() && cursor.Valid()
      modifies this, cursor
      ensures depth == old(depth)
      ensures cursor.Sound() && (status == Ok ==> cursor.Valid())
      ensures NodeVisited(BoxAnswer(cursor.text, old(cursor.Pos()), false, depth, rules), status, cursor.Pos(), old(events), events)
      decreases |cursor.text| - cursor.Pos(), 2
    {
      hide Cursor.Valid, Cursor.ValidAhead, Cursor.Sound, Cursor.SourceValid, Cursor.Pos, SkipSpace, Flat, Reported;
      hide InBody, BodyProgress, ScanBody, ScanEntry, ScanValue, ScanKey, Walk, KeyEvents, NodeVisited, BoxAnswer;
      ghost var s, start := cursor.text, cursor.Pos();
      if limits.maxDepth <= depth {
        DepthFails(s, start, false, depth, rules, cursor.Pos(), events, events);
        return Overflow;
      }
      Emit(ArrayBegin);
      ghost var begun, done := events, [];
      InBodyStarts(s, start, false, depth, rules, old(events), begun);
      var first := true;
      while true
        invariant depth == old(depth) && cursor.Valid() && start <= cursor.Pos()
        invariant InBody(s, start, cursor.Pos(), false, first, depth, rules, old(events), begun, events, done)
        decreases |s| - cursor.Pos()
      {
        ghost var p, was := cursor.Pos(), events;
        BodyByte(s, p, false, first, depth, rules);
        var ch := cursor.PeekNonspace();
        if ch == FAILED || ch == EOF {
          status := if ch == FAILED then Overflow else InvalidJson;
          InBodyFails(s, start, p, false, first, depth, rules, old(events), begun, was, done, status, cursor.Pos(), events);
          return;
        }
        if ch == 93 {
          ch := cursor.Getc();
          Emit(ArrayEnd);
          InBodyEnds(s, start, p, false, first, depth, rules, old(events), begun, was, done, cursor.Pos(), events);
          return Ok;
        }
        ghost var q := cursor.Pos();
        ghost var k, x, n;
        status, k, x, n := VisitEntry(false, first, p);
        if status != Ok {
          InBodyFails(s, start, p, false, first, depth, rules, old(events), begun, was, done, status, cursor.Pos(), events);
          return;
        }
        InBodyEntry(s, start, p, false, first, depth, rules, old(events), begun, was, done, q, k, x, n, cursor.Pos(), events);
        done := done + (KeyEvents(k.1) + Walk(n));
        first := false;
      }
    }

    method VisitObject() returns (status: Status)
      requires Configured() && cursor.Valid()
      modifies this, cursor
      ensures depth == old(depth)
      ensures cursor.Sound() && (status == Ok ==> cursor.Valid())
      ensures NodeVisited(BoxAnswer(cursor.text, old(cursor.Pos()), true, depth, rules), status, cursor.Pos(), old(events), events)
      decreases |cursor.text| - cursor.Pos(), 2
    {
      hide Cursor.Valid, Cursor.ValidAhead, Cursor.Sound, Cursor.SourceValid, Cursor.Pos, SkipSpace, Flat, Reported;
      hide InBody, BodyProgress, ScanBody, ScanEntry, ScanValue, ScanKey, Walk, KeyEvents, NodeVisited, BoxAnswer;
      ghost var s, start := cursor.text, cursor.Pos();
      if limits.maxDepth <= depth {
        DepthFails(s, start, true, depth, rules, cursor.Pos(), events, events);
        return Overflow;
      }
      Emit(ObjectBegin);
      ghost var begun, done := events, [];
      InBodyStarts(s, start, true, depth, rules, old(events), begun);
      var first := true;
      while true
        invariant depth == old(depth) && cursor.Valid() && start <= cursor.Pos()
        invariant InBody(s, start, cursor.Pos(), true, first, depth, rules, old(events), begun, events, done)
        decreases |s| - cursor.Pos()
      {
        ghost var p, was := cursor.Pos(), events;
        BodyByte(s, p, true, first, depth, rules);
        var ch := cursor.PeekNonspace();
        if ch == FAILED || ch == EOF {
          status := if ch == FAILED then Overflow else InvalidJson;
          InBodyFails(s, start, p, true, first, depth, rules, old(events), begun, was, done, status, cursor.Pos(), events);
          return;
        }
        if ch == 125 {
          ch := cursor.Getc();
          Emit(ObjectEnd);
          InBodyEnds(s, start, p, true, first, depth, rules, old(events), begun, was, done, cursor.Pos(), events);
          return Ok;
        }
        ghost var q := cursor.Pos();
        ghost var k, x, n;
        status, k, x, n := VisitEntry(true, first, p);
        if status != Ok {
          InBodyFails(s, start, p, true, first, depth, rules, old(events), begun, was, done, status, cursor.Pos(), events);
          return;
        }
        InBodyEntry(s, start, p, true, first, depth, rules, old(events), begun, was, done, q, k, x, n, cursor.Pos(), events);
        done := done + (KeyEvents(k.1) + Walk(n));
        first := false;
      }
    }

    /** The comma unless first, the key of an object entry, and the value. */
    method VisitEntry(isObject: bool, first: bool, ghost p: nat)
      returns (status: Status, ghost k: (bytes, Key), ghost x: nat, ghost n: Node)
      requires Configured() && cursor.Valid()
      requires cursor.Pos() == SkipSpace(cursor.text, p, limits.maxTotal)
      requires ReadAt(cursor.text, cursor.Pos(), limits.maxTotal).Byte? && cursor.text[cursor.Pos()] != Closer(isObject)
      modifies this, cursor
      ensures depth == old(depth)
      ensures cursor.Sound() && (status == Ok ==> cursor.Valid())
      ensures status != Ok ==> Fails(ScanBody(cursor.text, p, isObject, first, depth, rules), status)
      ensures var s, q := cursor.text, old(cursor.Pos());
              status == Ok ==>
                && ScanBody(s, p, isObject, first, depth, rules) == ScanEntry(s, p, q, isObject, first, depth, rules)
                && ScanKey(s, if first then q else q + 1, isObject, rules) == Good(k, x)
                && ScanValue(s, x, depth + 1, rules) == Good(n, cursor.Pos())
                && Reported(old(events), events, KeyEvents(k.1) + Walk(n))
      decreases |cursor.text| - cursor.Pos(), 1
    {
      hide Cursor.Valid, Cursor.ValidAhead, Cursor.Sound, Cursor.SourceValid, Cursor.Pos, SkipSpace, Flat, Reported;
      hide ScanBody, ScanEntry, ScanValue, ScanKey, Walk, KeyEvents;
      ghost var s, q, was := cursor.text, cursor.Pos(), events;
      BodyByte(s, p, isObject, first, depth, rules);
      k, x, n := ([], NoKey), 0, Literal(Null);
      if !first {
        var ch := cursor.Getc();
        if ch != COMMA {
          return InvalidJson, k, x, n;
        }
      }
      ghost var here := cursor.Pos();
      if isObject {
        status := VisitKey();
        if status != Ok {
          EntryKeyFails(s, p, q, true, first, depth, rules);
          return;
        }
        k := ScanKey(s, here, true, rules).value;
      } else {
        ArrayHasNoKey(s, here, rules);
        ReportedNone(events);
      }
      x := cursor.Pos();
      ghost var keyed := events;
      depth := depth + 1;
      status := VisitValue();
      depth := depth - 1;
      if status != Ok {
        EntryValueFails(s, p, q, isObject, first, depth, rules, k, x);
        return;
      }
      n := ScanValue(s, x, depth + 1, rules).value;
      ReportedMore(was, keyed, events, KeyEvents(k.1), Walk(n));
    }

    /** A value and the whitespace before it. */
    method VisitValue() returns (status: Status)
      requires Configured() && cursor.Valid()
      modifies this, cursor
      ensures depth == old(depth)
      ensures cursor.Sound() && (status == Ok ==> cursor.Valid())
      ensures var r := ScanValue(cursor.text, old(cursor.Pos()), depth, rules);
              if r.Bad? then status == r.status
              else status == Ok && cursor.Pos() == r.next && Reported(old(events), events, Walk(r.value))
      decreases |cursor.text| - cursor.Pos(), 0
    {
      hide Cursor.Valid, Cursor.ValidAhead, Cursor.Sound, Cursor.SourceValid, Cursor.Pos, SkipSpace;
      hide Flat, ScanNode, Walk, ScanChars, ScanNumber, ScanLiteral, BoxAnswer;
      var ch := cursor.PeekNonspace();
      if ch == FAILED {
        return Overflow;
      }
      if ch == EOF {
        return InvalidJson;
      }
      ghost var q := cursor.Pos();
      ch := cursor.Getc();
      NodeByte(cursor.text, q, depth, rules);
      if ch == QUOTE {
        status := VisitString(false);
        WalkOfString(ScanChars(cursor.text, q + 1, 0, limits.maxString, rules));
      } else if ch == 123 {
        status := VisitObject();
      } else if ch == 91 {
        status := VisitArray();
      } else if ch == 116 {
        status := VisitLiteral(ch, [114, 117, 101], true, True);
      } else if ch == 102 {
        status := VisitLiteral(ch, [97, 108, 115, 101], true, False);
      } else if ch == 110 {
        status := VisitLiteral(ch, [117, 108, 108], false, Null);
      } else if ch == MINUS || IsDigit(ch) {
        status := VisitNumber(ch);
      } else {
        status := InvalidJson;
      }
    }
  }

  // ----- Whole texts -----

  /** What a visit of a whole text must answer: the status, and on success the
      walk over the one tree the text has. */
  ghost predicate Answered(text: bytes, rules: Rules, status: Status, events: seq<Event>) {
    && (status == Ok <==> exists doc :: DocumentAccepted(text, rules, doc))
    && (forall doc :: DocumentAccepted(text, rules, doc) ==> Flat(events) == Walk(doc.value))
    && (status != Ok ==> Fails(ScanDocument(text, rules), status))
  }

  lemma ScanAnswers(text: bytes, rules: Rules, status: Status, events: seq<Event>)
    requires rules.paired
    requires var r := ScanDocument(text, rules);
             if r.Bad? then status == r.status else status == Ok && Flat(events) == Walk(r.value.value)
    ensures Answered(text, rules, status, events)
  {
    hide ScanDocument, DocumentAccepted, Walk, Flat;
    AcceptsExactlyTheGrammar(text, rules);
    forall doc | DocumentAccepted(text, rules, doc) ensures Flat(events) == Walk(doc.value) {
      DocumentComplete(text, rules, doc);
    }
  }

  /** Two visits of one text end alike and report the same trace up to where
      texts are cut, whatever the sources and their chunks. */
  lemma AnswerIsUnique(text: bytes, rules: Rules, status: Status, events: seq<Event>, status': Status, events': seq<Event>)
    requires Answered(text, rules, status, events) && Answered(text, rules, status', events')
    ensures status == status' && (status == Ok ==> Flat(events) == Flat(events'))
  {
    hide ScanDocument, DocumentAccepted, Walk, Flat;
    if status == Ok {
      var doc :| DocumentAccepted(text, rules, doc);
    } else if status' != Ok {
      assert ScanDocument(text, rules).status == status == status';
    }
  }

  /** What the counters of a cursor say, in the middle of a text and at its end. */
  lemma Accounted(cursor: Cursor, atEnd: bool)
    requires cursor.Sound() && (atEnd ==> cursor.Valid() && cursor.counted && cursor.Pos() == |cursor.text| && !cursor.hasPushback)
    ensures cursor.NextOffset() == cursor.Fetched()
    ensures atEnd ==> cursor.totalBytes == |cursor.text| == cursor.NextOffset()
  {
    hide Cursor.SourceValid;
  }

  /** Visits the one value of a text. The limits must be such that no number can
      overrun its storage. */
  method VisitCursor(cursor: Cursor, limits: Limits) returns (status: Status, events: seq<Event>)
    requires cursor.Valid() && cursor.Pos() == 0 && cursor.counted && cursor.maxTotal == limits.maxTotal
    requires StorageSuffices(EffectiveLimits(limits))
    modifies cursor
    ensures Answered(cursor.text, Rules(EffectiveLimits(limits), true, AnyLevel), status, events)
    ensures status == Ok ==> cursor.totalBytes == |cursor.text| == cursor.NextOffset()
    ensures cursor.Sound() && cursor.leftHas == cursor.hasPushback
    ensures cursor.leftHas ==> cursor.leftOffset < |cursor.text| && cursor.leftByte == cursor.text[cursor.leftOffset]
                               && cursor.leftOffset + 1 == cursor.NextOffset()
  {
    hide ScanDocument, ScanValue, SkipSpace, Answered, Walk, Flat, Reported, EffectiveLimits, StorageSuffices;
    hide Cursor.ValidAhead, Cursor.SourceValid, Cursor.Valid, Cursor.Sound, Cursor.Pos;
    var visitor := new Visitor(cursor, limits);
    ghost var s, rules := cursor.text, visitor.rules;
    status := visitor.VisitValue();
    if status == Ok {
      ghost var n := ScanValue(s, 0, 0, rules).value;
      ReportedFirst(visitor.events, Walk(n));
      DocumentEnds(s, rules, cursor.Pos(), n);
      var ch := cursor.PeekNonspace();
      if ch != EOF {
        status := InvalidJson;
      }
    } else {
      ValueFails(s, rules);
    }
    events := visitor.events;
    cursor.LeavePushback();
    Accounted(cursor, status == Ok);
    ScanAnswers(s, rules, status, events);
  }
}
