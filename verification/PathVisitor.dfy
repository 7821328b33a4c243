/** The visitor with locations, each method proved to report exactly the walk
    over the tree it reads, every event at its true location. It reads numbers,
    escapes and literals as the visitor without locations does. */
module PathVisitors {
  import opened Bytes
  import opened Grammar
  import opened Scanner
  import opened StringProofs
  import opened Cursors
  import opened Trace
  import opened Steps
  import opened GrammarProofs
  import opened Visitors
  import opened PathStacks
  import NumberCheck

  /** Between two traces, exactly these bytes of a text were reported at `path`. */
  ghost predicate SentAt(before: seq<Located>, after: seq<Located>, path: seq<bytes>, kind: Kind, data: bytes) {
    FlatAt(after) == FlatAt(before) + AllAt(path, Explode(kind, data))
  }

  lemma SentAtNone(t: seq<Located>, path: seq<bytes>, kind: Kind)
    ensures SentAt(t, t, path, kind, [])
  {
  }

  lemma SentAtMore(a: seq<Located>, b: seq<Located>, c: seq<Located>, path: seq<bytes>, kind: Kind, x: bytes, y: bytes)
    requires SentAt(a, b, path, kind, x) && SentAt(b, c, path, kind, y)
    ensures SentAt(a, c, path, kind, x + y)
  {
    hide FlatAt, Explode, AllAt;
    ExplodeConcat(kind, x, y);
    AllAtConcat(path, Explode(kind, x), Explode(kind, y));
    var f, g := AllAt(path, Explode(kind, x)), AllAt(path, Explode(kind, y));
    assert FlatAt(a) + f + g == FlatAt(a) + (f + g);
  }

  /** Between two traces, exactly these events were reported. */
  ghost predicate ReportedAt(before: seq<Located>, after: seq<Located>, t: seq<Located>) {
    FlatAt(after) == FlatAt(before) + t
  }

  lemma ReportedAtNone(t: seq<Located>)
    ensures ReportedAt(t, t, [])
  {
  }

  lemma ReportedAtFirst(t: seq<Located>, w: seq<Located>)
    requires ReportedAt([], t, w)
    ensures FlatAt(t) == w
  {
    assert FlatAt([]) + w == w;
  }

  lemma ReportedAtMore(a: seq<Located>, b: seq<Located>, c: seq<Located>, x: seq<Located>, y: seq<Located>)
    requires ReportedAt(a, b, x) && ReportedAt(b, c, y)
    ensures ReportedAt(a, c, x + y)
  {
    hide FlatAt;
    assert FlatAt(a) + x + y == FlatAt(a) + (x + y);
  }

  lemma StringReportedAt(path: seq<bytes>, kind: Kind, a: seq<Located>, b: seq<Located>, c: seq<Located>, d: seq<Located>, sent: bytes)
    requires ReportedAt(a, b, [Located(path, Begin(kind))]) && SentAt(b, c, path, kind, sent)
    requires ReportedAt(c, d, [Located(path, Finish(kind))])
    ensures ReportedAt(a, d, AllAt(path, TextEvents(kind, sent)))
  {
    hide FlatAt, Explode;
    var x := Explode(kind, sent);
    AllAtConcat(path, [Begin(kind)], x);
    AllAtConcat(path, [Begin(kind)] + x, [Finish(kind)]);
    assert AllAt(path, [Begin(kind)]) == [Located(path, Begin(kind))];
    assert AllAt(path, [Finish(kind)]) == [Located(path, Finish(kind))];
    assert FlatAt(a) + [Located(path, Begin(kind))] + AllAt(path, x) + [Located(path, Finish(kind))]
        == FlatAt(a) + ([Located(path, Begin(kind))] + AllAt(path, x) + [Located(path, Finish(kind))]);
  }

  /** A value was read as the scanner says, and its walk reported from `path`. */
  ghost predicate NodeVisitedAt(r: Out<Node>, status: Status, pos: int, path: seq<bytes>, before: seq<Located>, after: seq<Located>) {
    if r.Bad? then status == r.status
    else status == Ok && pos == r.next && ReportedAt(before, after, WalkAt(r.value, path))
  }

  /** A string was read as the scanner says, and reported at `path`. */
  ghost predicate TextVisitedAt(r: Out<Chars>, kind: Kind, status: Status, pos: int, path: seq<bytes>, before: seq<Located>, after: seq<Located>) {
    if r.Bad? then status == r.status
    else status == Ok && pos == r.next && ReportedAt(before, after, AllAt(path, TextEvents(kind, Decode(r.value))))
  }

  /** The events of an entry: its key at the container, its value one segment deeper. */
  ghost function EntryEvents(key: Key, value: Node, path: seq<bytes>, index: nat): seq<Located> {
    AllAt(path, KeyEvents(key)) + WalkAt(value, path + [Segment(key, index)])
  }

  /** The answer `now`, after `index` entries and the events `done`, leads to the answer `all`. */
  ghost predicate BodyProgressAt(all: Out<Body>, now: Out<Body>, path: seq<bytes>, index: nat, done: seq<Located>) {
    if all.Bad? then now == all
    else now.Good? && now.next == all.next && WalkBodyAt(all.value, path, 0) == done + WalkBodyAt(now.value, path, index)
  }

  lemma BodyStartsAt(all: Out<Body>, path: seq<bytes>)
    ensures BodyProgressAt(all, all, path, 0, [])
  {
  }

  lemma BodyFailsAt(all: Out<Body>, now: Out<Body>, path: seq<bytes>, index: nat, done: seq<Located>)
    requires BodyProgressAt(all, now, path, index, done) && now.Bad?
    ensures all == now
  {
  }

  lemma BodyEndsAt(all: Out<Body>, now: Out<Body>, path: seq<bytes>, index: nat, done: seq<Located>)
    requires BodyProgressAt(all, now, path, index, done) && now.Good? && now.value.End?
    ensures all.Good? && all.next == now.next && WalkBodyAt(all.value, path, 0) == done
  {
    assert done + [] == done;
  }

  lemma WalkBodyAtEntry(e: Body, path: seq<bytes>, index: nat)
    requires e.Entry?
    ensures WalkBodyAt(e, path, index) == EntryEvents(e.key, e.value, path, index) + WalkBodyAt(e.rest, path, index + 1)
  {
  }

  lemma BodyEntryAt(s: bytes, p: nat, q: nat, isObject: bool, first: bool, d: nat, rules: Rules,
                    k: (bytes, Key), x: nat, n: Node, y: nat, all: Out<Body>, path: seq<bytes>, index: nat, done: seq<Located>)
    requires p <= q < |s| && ScanKey(s, if first then q else q + 1, isObject, rules) == Good(k, x)
    requires ScanValue(s, x, d + 1, rules) == Good(n, y)
    requires BodyProgressAt(all, ScanEntry(s, p, q, isObject, first, d, rules), path, index, done)
    ensures BodyProgressAt(all, ScanBody(s, y, isObject, false, d, rules), path, index + 1, done + EntryEvents(k.1, n, path, index))
  {
    hide ScanKey, ScanValue, ScanEntry, ScanBody, EntryEvents, WalkBodyAt;
    EntryThenRest(s, p, q, isObject, first, d, rules, k, x, n, y);
    var rest := ScanBody(s, y, isObject, false, d, rules);
    if rest.Good? {
      WalkBodyAtEntry(ScanEntry(s, p, q, isObject, first, d, rules).value, path, index);
      var w := WalkBodyAt(rest.value, path, index + 1);
      assert done + (EntryEvents(k.1, n, path, index) + w) == done + EntryEvents(k.1, n, path, index) + w;
    }
  }

  lemma BoxReportedAt(isObject: bool, b: Body, path: seq<bytes>, a: seq<Located>, begun: seq<Located>, body: seq<Located>, end: seq<Located>)
    requires ReportedAt(a, begun, [Located(path, OpenEvent(isObject))]) && ReportedAt(begun, body, WalkBodyAt(b, path, 0))
    requires ReportedAt(body, end, [Located(path, CloseEvent(isObject))])
    ensures ReportedAt(a, end, WalkAt(Box(isObject, b), path))
  {
    hide FlatAt, WalkBodyAt;
    assert FlatAt(a) + [Located(path, OpenEvent(isObject))] + WalkBodyAt(b, path, 0) + [Located(path, CloseEvent(isObject))]
        == FlatAt(a) + ([Located(path, OpenEvent(isObject))] + WalkBodyAt(b, path, 0) + [Located(path, CloseEvent(isObject))]);
  }

  /** Inside a container at `path`, opened before `start` and read up to `p`,
      `index` entries being reported as `done`. */
  ghost predicate InBodyAt(s: bytes, start: nat, p: nat, isObject: bool, first: bool, d: nat, rules: Rules,
                           path: seq<bytes>, index: nat,
                           before: seq<Located>, begun: seq<Located>, now: seq<Located>, done: seq<Located>) {
    && ReportedAt(before, begun, [Located(path, OpenEvent(isObject))]) && ReportedAt(begun, now, done)
    && BodyProgressAt(ScanBody(s, start, isObject, true, d, rules), ScanBody(s, p, isObject, first, d, rules), path, index, done)
    && (rules.limits.maxDepth == 0 || d < rules.limits.maxDepth)
  }

  lemma InBodyAtStarts(s: bytes, start: nat, isObject: bool, d: nat, rules: Rules, path: seq<bytes>, before: seq<Located>, begun: seq<Located>)
    requires ReportedAt(before, begun, [Located(path, OpenEvent(isObject))])
    requires rules.limits.maxDepth == 0 || d < rules.limits.maxDepth
    ensures InBodyAt(s, start, start, isObject, true, d, rules, path, 0, before, begun, begun, [])
  {
    hide ReportedAt, BodyProgressAt, ScanBody;
    ReportedAtNone(begun);
    BodyStartsAt(ScanBody(s, start, isObject, true, d, rules), path);
  }

  lemma InBodyAtFails(s: bytes, start: nat, p: nat, isObject: bool, first: bool, d: nat, rules: Rules, path: seq<bytes>, index: nat,
                      before: seq<Located>, begun: seq<Located>, now: seq<Located>, done: seq<Located>,
                      st: Status, pos: int, after: seq<Located>)
    requires InBodyAt(s, start, p, isObject, first, d, rules, path, index, before, begun, now, done)
    requires ScanBody(s, p, isObject, first, d, rules).Bad? && ScanBody(s, p, isObject, first, d, rules).status == st
    ensures NodeVisitedAt(BoxAnswer(s, start, isObject, d, rules), st, pos, path, before, after)
  {
    hide ReportedAt, BodyProgressAt, ScanBody;
    BodyFailsAt(ScanBody(s, start, isObject, true, d, rules), ScanBody(s, p, isObject, first, d, rules), path, index, done);
  }

  lemma InBodyAtEnds(s: bytes, start: nat, p: nat, isObject: bool, first: bool, d: nat, rules: Rules, path: seq<bytes>, index: nat,
                     before: seq<Located>, begun: seq<Located>, now: seq<Located>, done: seq<Located>, pos: nat, after: seq<Located>)
    requires InBodyAt(s, start, p, isObject, first, d, rules, path, index, before, begun, now, done)
    requires var r := ScanBody(s, p, isObject, first, d, rules); r.Good? && r.value.End? && r.next == pos
    requires ReportedAt(now, after, [Located(path, CloseEvent(isObject))])
    ensures NodeVisitedAt(BoxAnswer(s, start, isObject, d, rules), Ok, pos, path, before, after)
  {
    hide ReportedAt, BodyProgressAt, ScanBody, WalkAt, WalkBodyAt;
    var all := ScanBody(s, start, isObject, true, d, rules);
    BodyEndsAt(all, ScanBody(s, p, isObject, first, d, rules), path, index, done);
    BoxReportedAt(isObject, all.value, path, before, begun, now, after);
  }

  lemma InBodyAtEntry(s: bytes, start: nat, p: nat, isObject: bool, first: bool, d: nat, rules: Rules, path: seq<bytes>, index: nat,
                      before: seq<Located>, begun: seq<Located>, now: seq<Located>, done: seq<Located>,
                      q: nat, k: (bytes, Key), x: nat, n: Node, y: nat, after: seq<Located>)
    requires InBodyAt(s, start, p, isObject, first, d, rules, path, index, before, begun, now, done)
    requires p <= q < |s| && ScanBody(s, p, isObject, first, d, rules) == ScanEntry(s, p, q, isObject, first, d, rules)
    requires ScanKey(s, if first then q else q + 1, isObject, rules) == Good(k, x)
    requires ScanValue(s, x, d + 1, rules) == Good(n, y)
    requires ReportedAt(now, after, EntryEvents(k.1, n, path, index))
    ensures InBodyAt(s, start, y, isObject, false, d, rules, path, index + 1, before, begun, after, done + EntryEvents(k.1, n, path, index))
  {
    hide ReportedAt, BodyProgressAt, ScanBody, ScanEntry, ScanKey, ScanValue, EntryEvents;
    BodyEntryAt(s, p, q, isObject, first, d, rules, k, x, n, y, ScanBody(s, start, isObject, true, d, rules), path, index, done);
    ReportedAtMore(begun, now, after, done, EntryEvents(k.1, n, path, index));
  }

  lemma DepthFailsAt(s: bytes, start: nat, isObject: bool, d: nat, rules: Rules, pos: int, path: seq<bytes>, before: seq<Located>, after: seq<Located>)
    requires rules.limits.maxDepth != 0 && rules.limits.maxDepth <= d
    ensures NodeVisitedAt(BoxAnswer(s, start, isObject, d, rules), Overflow, pos, path, before, after)
  {
  }

  lemma NothingAt(t: seq<Located>, path: seq<bytes>)
    ensures ReportedAt(t, t, AllAt(path, KeyEvents(NoKey)))
  {
  }

  lemma WalkOfStringAt(r: Out<Chars>, path: seq<bytes>)
    ensures r.Good? ==> WalkAt(Str(r.value), path) == AllAt(path, TextEvents(OfString, Decode(r.value)))
  {
  }

  // ----- A stack without frames -----

  /** The first entry of the container opened before `start` is reached: its key,
      or the byte it starts with, is read. */
  ghost predicate FirstEntryReached(s: bytes, start: nat, isObject: bool, rules: Rules) {
    var q := SkipSpace(s, start, rules.limits.maxTotal);
    && ReadAt(s, q, rules.limits.maxTotal).Byte? && s[q] != Closer(isObject)
    && ScanKey(s, q, isObject, rules).Good?
  }

  /** The value at `p` is a container whose first entry is reached. A stack without
      frames has no room for it. */
  ghost predicate StackFails(s: bytes, p: nat, rules: Rules) {
    var q := SkipSpace(s, p, rules.limits.maxTotal);
    && ReadAt(s, q, rules.limits.maxTotal).Byte? && (s[q] == Opener(true) || s[q] == Opener(false))
    && FirstEntryReached(s, q + 1, s[q] == Opener(true), rules)
  }

  /** There is room at every depth the limit allows, unless there is none at all. */
  lemma RoomForAll(maxDepth: nat, depth: nat)
    requires DepthIsAllocatable(maxDepth) && depth < maxDepth
    ensures 0 < PathCapacity(maxDepth) ==> depth < PathCapacity(maxDepth)
    ensures PathCapacity(maxDepth) == 0 <==> maxDepth == SIZE_MAX
  {
  }

  /** What a unit stands for is shorter than its text. */
  lemma UnitIsShort(s: bytes, p: nat, rules: Rules)
    ensures var r := ScanUnit(s, p, rules); r.Good? ==> |UnitBytes(r.value)| <= r.next - p
  {
    hide ScanHex, HexValue, Utf8;
  }

  // ----- The visitor -----

  class PathVisitor {
    const cursor: Cursor
    const stack: PathStack
    const limits: Limits
    var depth: nat
    var events: seq<Located>

    ghost const rules: Rules

    ghost predicate Configured()
      reads {}
    {
      && cursor.counted && cursor.maxTotal == limits.maxTotal && rules == Rules(limits, true, AnyLevel)
      && limits.maxDepth != 0 && limits.maxString != 0 && StorageSuffices(limits) && limits.maxKey != 0
      && DepthIsAllocatable(limits.maxDepth) && stack.capacity == PathCapacity(limits.maxDepth) && |cursor.text| <= SIZE_MAX
    }

    constructor (cursor: Cursor, limits: Limits)
      requires cursor.counted && cursor.maxTotal == limits.maxTotal && |cursor.text| <= SIZE_MAX
      requires StorageSuffices(EffectiveLimits(limits)) && DepthIsAllocatable(EffectiveLimits(limits).maxDepth)
      ensures Configured() && this.cursor == cursor && depth == 0 && events == []
      ensures this.limits == EffectiveLimits(limits)
      ensures fresh(stack) && stack.Spells([], [])
    {
      this.cursor := cursor;
      this.limits := EffectiveLimits(limits);
      rules := Rules(EffectiveLimits(limits), true, AnyLevel);
      depth, events := 0, [];
      stack := new PathStack(EffectiveLimits(limits).maxDepth);
    }

    method Emit(e: Event, ghost path: seq<bytes>, ghost indices: seq<nat>)
      requires !e.Chunk? && stack.Spells(path, indices)
      modifies this`events
      ensures ReportedAt(old(events), events, [Located(path, e)])
    {
      hide PathStack.Valid, PathStack.Path;
      FlatAtAppend(events, Located(path, e));
      assert AllAt(path, [e]) == [Located(path, e)];
      events := events + [Located(stack.Path(), e)];
    }

    /** Reports part of a text; part of a key also joins the key collected. */
    method EmitChunk(isKey: bool, kind: Kind, data: bytes, ghost path: seq<bytes>, ghost indices: seq<nat>, ghost key: bytes)
      requires stack.Spells(path, indices) && stack.Keyed(isKey, key)
      requires isKey ==> |key| + |data| < SIZE_MAX
      modifies this`events, stack
      ensures stack.Spells(path, indices) && stack.Keyed(isKey, key + data)
      ensures SentAt(old(events), events, path, kind, data)
    {
      hide PathStack.Valid, PathStack.Path, PathStack.Indices, PathStack.Key;
      if |data| == 0 {
        assert key + data == key;
        SentAtNone(events, path, kind);
        return;
      }
      if isKey {
        var status := stack.KeyAppend(data);
      }
      FlatAtAppend(events, Located(path, Chunk(kind, data)));
      events := events + [Located(stack.Path(), Chunk(kind, data))];
    }

    /** `done` and `plain` are the decoded bytes of a key so far: fewer than the
        bytes read up to `pos`, an opening quote among them. */
    ghost predicate KeyFits(isKey: bool, done: bytes, plain: bytes, decoded: nat, pos: int)
      reads {}
    {
      isKey ==> |done| + |plain| == decoded < pos <= |cursor.text|
    }

    /** Adds bytes to the buffer, reporting it whenever it is full. */
    method Gather(isKey: bool, plain: bytes, data: bytes, ghost path: seq<bytes>, ghost indices: seq<nat>, ghost done: bytes)
      returns (plain': bytes, ghost sent: bytes)
      requires |plain| < PLAIN_CAPACITY && stack.Spells(path, indices) && stack.Keyed(isKey, done)
      requires isKey ==> |done| + |plain| + |data| < SIZE_MAX
      modifies this`events, stack
      ensures |plain'| < PLAIN_CAPACITY && sent + plain' == plain + data
      ensures SentAt(old(events), events, path, TextKind(isKey), sent)
      ensures stack.Spells(path, indices) && stack.Keyed(isKey, done + sent)
    {
      hide SentAt, PathStack.Spells, PathStack.Keyed;
      plain', sent := plain, [];
      var offset := 0;
      SentAtNone(events, path, TextKind(isKey));
      assert done + sent == done;
      while offset < |data|
        invariant 0 <= offset <= |data| && |plain'| < PLAIN_CAPACITY
        invariant sent + plain' == plain + data[..offset]
        invariant SentAt(old(events), events, path, TextKind(isKey), sent)
        invariant stack.Spells(path, indices) && stack.Keyed(isKey, done + sent)
      {
        var take := |data| - offset;
        if PLAIN_CAPACITY < take {
          take := PLAIN_CAPACITY;
        }
        if PLAIN_CAPACITY - |plain'| < take {
          take := PLAIN_CAPACITY - |plain'|;
        }
        GatherStep(sent, plain', plain, data, offset, take);
        plain' := plain' + data[offset..offset + take];
        offset := offset + take;
        if |plain'| == PLAIN_CAPACITY {
          ghost var was := events;
          assert |sent| + |plain'| == |plain| + offset by {
            assert |sent + plain'| == |plain + data[..offset]|;
          }
          EmitChunk(isKey, TextKind(isKey), plain', path, indices, done + sent);
          SentAtMore(old(events), was, events, path, TextKind(isKey), sent, plain');
          assert done + sent + plain' == done + (sent + plain');
          sent := sent + plain';
          plain' := [];
        }
      }
      assert data[..offset] == data;
    }

    /** Passes on a run of plain bytes: directly, or through the buffer when it
        already holds some. `sent` are the bytes reported meanwhile. */
    method VisitPlainChunk(isKey: bool, plain: bytes, decoded: nat, data: bytes,
                           ghost path: seq<bytes>, ghost indices: seq<nat>, ghost done: bytes)
      returns (status: Status, plain': bytes, decoded': nat, ghost sent: bytes)
      requires Configured() && cursor.Valid() && |plain| < PLAIN_CAPACITY && data != [] && cursor.Pos() + |data| <= |cursor.text|
      requires stack.Spells(path, indices) && stack.Keyed(isKey, done) && KeyFits(isKey, done, plain, decoded, cursor.Pos())
      modifies this`events, cursor`totalBytes, stack
      ensures cursor.Sound() && (status == Ok ==> cursor.ValidAhead(|data|))
      ensures status == if Exceeds(limits.maxTotal, cursor.Pos() + |data|) || Exceeds(TextLimit(limits, isKey), decoded + |data|) then Overflow else Ok
      ensures stack.Spells(path, indices)
      ensures status == Ok ==>
                && decoded' == decoded + |data| && |plain'| < PLAIN_CAPACITY && sent + plain' == plain + data
                && SentAt(old(events), events, path, TextKind(isKey), sent)
                && stack.Keyed(isKey, done + sent) && KeyFits(isKey, done + sent, plain', decoded', cursor.Pos() + |data|)
    {
      hide Cursor.Valid, Cursor.ValidAhead, Cursor.Sound, Cursor.SourceValid, SentAt, PathStack.Spells, PathStack.Keyed;
      plain', decoded', sent := plain, decoded, [];
      var ok := cursor.CountSpan(|data|);
      if !ok {
        return Overflow, plain', decoded', sent;
      }
      decoded' := decoded + |data|;
      if TextLimit(limits, isKey) != 0 && TextLimit(limits, isKey) < decoded' {
        return Overflow, plain', decoded', sent;
      }
      status := Ok;
      if |plain| == 0 {
        EmitChunk(isKey, TextKind(isKey), data, path, indices, done);
        sent := data;
        assert data + [] == [] + data;
      } else {
        plain', sent := Gather(isKey, plain, data, path, indices, done);
        assert |sent| + |plain'| == |plain| + |data| by {
          assert |sent + plain'| == |plain + data|;
        }
      }
    }

    /** Passes on the first `k` bytes of a span, which are plain. */
    method TakePlain(isKey: bool, plain: bytes, decoded: nat, span: bytes, k: nat,
                     ghost path: seq<bytes>, ghost indices: seq<nat>, ghost all: Out<Chars>, ghost done: bytes)
      returns (status: Status, plain': bytes, decoded': nat, ghost sent: bytes)
      requires Configured() && cursor.Valid() && |plain| < PLAIN_CAPACITY
      requires cursor.SpanHere(span) && 0 < k <= |span| && (forall i :: 0 <= i < k ==> IsPlain(span[i]))
      requires CharsProgress(all, ScanChars(cursor.text, cursor.Pos(), decoded, TextLimit(limits, isKey), rules), done + plain)
      requires stack.Spells(path, indices) && stack.Keyed(isKey, done) && KeyFits(isKey, done, plain, decoded, cursor.Pos())
      modifies this`events, cursor, stack
      ensures cursor.Sound() && stack.Spells(path, indices)
      ensures status == Ok ==>
                && cursor.Valid() && |plain'| < PLAIN_CAPACITY && cursor.Pos() == old(cursor.Pos()) + k
                && CharsProgress(all, ScanChars(cursor.text, cursor.Pos(), decoded', TextLimit(limits, isKey), rules), done + sent + plain')
                && SentAt(old(events), events, path, TextKind(isKey), sent)
                && stack.Keyed(isKey, done + sent) && KeyFits(isKey, done + sent, plain', decoded', cursor.Pos())
      ensures status != Ok ==> Fails(all, status)
    {
      hide Cursor.Valid, Cursor.ValidAhead, Cursor.Sound, Cursor.SourceValid, Cursor.SpanAvailable, SentAt, CharsProgress, ScanChars;
      hide PathStack.Spells, PathStack.Keyed, KeyFits, TextLimit;
      ghost var p, limit := cursor.Pos(), TextLimit(limits, isKey);
      PlainRunOf(cursor.text, p, decoded, limit, rules, span, k);
      status, plain', decoded', sent := VisitPlainChunk(isKey, plain, decoded, span[..k], path, indices, done);
      if status != Ok {
        ProgressBad(all, ScanChars(cursor.text, p, decoded, limit, rules), done + plain);
        return;
      }
      CharsProgressTrans(all, ScanChars(cursor.text, p, decoded, limit, rules), ScanChars(cursor.text, p + k, decoded', limit, rules),
                         done + plain, span[..k]);
      Regroup(done, plain, span[..k], sent, plain');
      SpanShorter(cursor, |span|, k);
      cursor.AdvanceSpan(k);
    }

    /** Passes on the plain bytes at hand. */
    method VisitSpans(isKey: bool, plain: bytes, decoded: nat,
                      ghost path: seq<bytes>, ghost indices: seq<nat>, ghost all: Out<Chars>, ghost done: bytes)
      returns (status: Status, plain': bytes, decoded': nat, ghost sent: bytes)
      requires Configured() && cursor.Valid() && |plain| < PLAIN_CAPACITY
      requires CharsProgress(all, ScanChars(cursor.text, cursor.Pos(), decoded, TextLimit(limits, isKey), rules), done + plain)
      requires stack.Spells(path, indices) && stack.Keyed(isKey, done) && KeyFits(isKey, done, plain, decoded, cursor.Pos())
      modifies this`events, cursor, stack
      ensures cursor.Sound() && stack.Spells(path, indices)
      ensures status == Ok ==>
                && cursor.Valid() && |plain'| < PLAIN_CAPACITY && old(cursor.Pos()) <= cursor.Pos()
                && CharsProgress(all, ScanChars(cursor.text, cursor.Pos(), decoded', TextLimit(limits, isKey), rules), done + sent + plain')
                && SentAt(old(events), events, path, TextKind(isKey), sent)
                && stack.Keyed(isKey, done + sent) && KeyFits(isKey, done + sent, plain', decoded', cursor.Pos())
      ensures status != Ok ==> Fails(all, status)
    {
      hide Cursor.SpanHere, Cursor.Valid, Cursor.ValidAhead, Cursor.Sound;
      hide Cursor.SourceValid, Cursor.SpanAvailable, SentAt, CharsProgress, ScanChars;
      hide PathStack.Spells, PathStack.Keyed, KeyFits, TextLimit, TextKind;
      plain', decoded', sent, status := plain, decoded, [], Ok;
      SentAtNone(events, path, TextKind(isKey));
      assert done + [] == done;
      var span := cursor.PlainSpan();
      while span != []
        invariant status == Ok && cursor.Valid() && |plain'| < PLAIN_CAPACITY && old(cursor.Pos()) <= cursor.Pos()
        invariant cursor.SpanHere(span)
        invariant CharsProgress(all, ScanChars(cursor.text, cursor.Pos(), decoded', TextLimit(limits, isKey), rules), done + sent + plain')
        invariant SentAt(old(events), events, path, TextKind(isKey), sent)
        invariant stack.Spells(path, indices) && stack.Keyed(isKey, done + sent) && KeyFits(isKey, done + sent, plain', decoded', cursor.Pos())
        decreases |cursor.text| - cursor.Pos()
      {
        var k := PlainPrefix(span);
        if k == 0 {
          break;
        }
        ghost var was, more := events, [];
        status, plain', decoded', more := TakePlain(isKey, plain', decoded', span, k, path, indices, all, done + sent);
        if status != Ok {
          return;
        }
        SentAtMore(old(events), was, events, path, TextKind(isKey), sent, more);
        assert done + (sent + more) == done + sent + more;
        sent := sent + more;
        if k < |span| {
          break;
        }
        span := cursor.PlainSpan();
      }
    }

    /** A plain byte read on its own joins the buffer. */
    method VisitPlainByte(isKey: bool, plain: bytes, decoded: nat, b: byte, ghost p: nat,
                          ghost path: seq<bytes>, ghost indices: seq<nat>, ghost all: Out<Chars>, ghost done: bytes)
      returns (status: Status, plain': bytes, decoded': nat, ghost sent: bytes)
      requires Configured() && |plain| < PLAIN_CAPACITY && p < |cursor.text| && cursor.text[p] == b && IsPlain(b)
      requires !Exceeds(limits.maxTotal, p + 1)
      requires CharsProgress(all, ScanChars(cursor.text, p, decoded, TextLimit(limits, isKey), rules), done + plain)
      requires stack.Spells(path, indices) && stack.Keyed(isKey, done) && KeyFits(isKey, done, plain, decoded, p)
      modifies this`events, stack
      ensures stack.Spells(path, indices)
      ensures status == Ok ==>
                && |plain'| < PLAIN_CAPACITY && SentAt(old(events), events, path, TextKind(isKey), sent)
                && CharsProgress(all, ScanChars(cursor.text, p + 1, decoded', TextLimit(limits, isKey), rules), done + sent + plain')
                && stack.Keyed(isKey, done + sent) && KeyFits(isKey, done + sent, plain', decoded', p + 1)
      ensures status != Ok ==> Fails(all, status)
    {
      hide SentAt, CharsProgress, ScanChars, PathStack.Spells, PathStack.Keyed;
      ghost var limit := TextLimit(limits, isKey);
      sent := [];
      SentAtNone(events, path, TextKind(isKey));
      plain' := plain + [b];
      decoded' := decoded + 1;
      PlainStep(cursor.text, p, decoded, limit, rules);
      if TextLimit(limits, isKey) != 0 && TextLimit(limits, isKey) < decoded' {
        ProgressBad(all, ScanChars(cursor.text, p, decoded, limit, rules), done + plain);
        return Overflow, plain', decoded', sent;
      }
      status := Ok;
      CharsProgressTrans(all, ScanChars(cursor.text, p, decoded, limit, rules), ScanChars(cursor.text, p + 1, decoded', limit, rules),
                         done + plain, [b]);
      assert done + plain + [b] == done + [] + plain' == done + plain' + [];
      assert done + [] == done;
      if |plain'| == PLAIN_CAPACITY {
        EmitChunk(isKey, TextKind(isKey), plain', path, indices, done);
        sent, plain' := plain', [];
      }
    }

    /** Reads one byte of a string, or one escape, and the quote that ends it. */
    method VisitStringByte(isKey: bool, plain: bytes, decoded: nat,
                           ghost path: seq<bytes>, ghost indices: seq<nat>, ghost all: Out<Chars>, ghost done: bytes)
      returns (status: Status, ended: bool, plain': bytes, decoded': nat, ghost sent: bytes)
      requires Configured() && cursor.Valid() && |plain| < PLAIN_CAPACITY
      requires CharsProgress(all, ScanChars(cursor.text, cursor.Pos(), decoded, TextLimit(limits, isKey), rules), done + plain)
      requires stack.Spells(path, indices) && stack.Keyed(isKey, done) && KeyFits(isKey, done, plain, decoded, cursor.Pos())
      modifies this`events, cursor, stack
      ensures cursor.Sound() && stack.Spells(path, indices)
      ensures status == Ok ==>
                && cursor.Valid() && |plain'| < PLAIN_CAPACITY && old(cursor.Pos()) < cursor.Pos()
                && SentAt(old(events), events, path, TextKind(isKey), sent)
                && (if ended then all.Good? && all.next == cursor.Pos() && Decode(all.value) == done + sent && plain' == []
                    else CharsProgress(all, ScanChars(cursor.text, cursor.Pos(), decoded', TextLimit(limits, isKey), rules), done + sent + plain'))
                && stack.Keyed(isKey, done + sent) && KeyFits(isKey, done + sent, plain', decoded', cursor.Pos())
      ensures status != Ok ==> Fails(all, status)
    {
      hide Cursor.Valid, Cursor.ValidAhead, Cursor.Sound, Cursor.SourceValid, Cursor.CanUnget;
      hide SentAt, CharsProgress, ScanChars, ScanEscape, ScanUnit, UnitBytes;
      hide PathStack.Spells, PathStack.Keyed;
      ghost var p, limit := cursor.Pos(), TextLimit(limits, isKey);
      ghost var now := ScanChars(cursor.text, p, decoded, limit, rules);
      plain', decoded', sent, ended := plain, decoded, [], false;
      ByteDecides(cursor.text, p, decoded, limit, rules);
      var ch := cursor.Getc();
      if ch == FAILED || ch == EOF || ch < 0x20 {
        ProgressBad(all, now, done + plain);
        status := if ch == FAILED then Overflow else InvalidJson;
        return;
      }
      if ch == QUOTE {
        EmitChunk(isKey, TextKind(isKey), plain, path, indices, done);
        ProgressDone(all, now, done + plain);
        status, ended, plain', sent := Ok, true, [], plain;
        return;
      }
      if ch != BACKSLASH {
        status, plain', decoded', sent := VisitPlainByte(isKey, plain, decoded, ch, p, path, indices, all, done);
        return;
      }
      ghost var was := events;
      EmitChunk(isKey, TextKind(isKey), plain, path, indices, done);
      var data;
      status, data := ReadEscape(cursor, rules);
      if status != Ok {
        ProgressBad(all, now, done + plain);
        return;
      }
      UnitStep(cursor.text, p, decoded, limit, rules, ScanUnit(cursor.text, p, rules).value, cursor.Pos());
      UnitIsShort(cursor.text, p, rules);
      decoded' := decoded + |data|;
      if TextLimit(limits, isKey) != 0 && TextLimit(limits, isKey) < decoded' {
        ProgressBad(all, now, done + plain);
        return Overflow, false, [], decoded', sent;
      }
      ghost var mid := events;
      EmitChunk(isKey, TextKind(isKey), data, path, indices, done + plain);
      SentAtMore(was, mid, events, path, TextKind(isKey), plain, data);
      CharsProgressTrans(all, now, ScanChars(cursor.text, cursor.Pos(), decoded', limit, rules), done + plain, data);
      plain', sent := [], plain + data;
      assert done + plain + data == done + sent + [] == done + sent;
    }

    /** A string or object key, its opening quote already read. A key is
        collected for the next path segment. */
    method VisitString(isKey: bool, ghost path: seq<bytes>, ghost indices: seq<nat>) returns (status: Status)
      requires Configured() && cursor.Valid() && stack.Spells(path, indices) && (isKey ==> 0 < cursor.Pos())
      modifies this`events, cursor, stack
      ensures cursor.Sound() && (status == Ok ==> cursor.Valid()) && stack.Spells(path, indices)
      ensures var r := ScanChars(cursor.text, old(cursor.Pos()), 0, TextLimit(limits, isKey), rules);
              && TextVisitedAt(r, TextKind(isKey), status, cursor.Pos(), path, old(events), events)
              && (r.Good? ==> stack.Keyed(isKey, Decode(r.value)))
    {
      hide Cursor.Valid, Cursor.ValidAhead, Cursor.Sound, Cursor.SourceValid, SentAt, ReportedAt, CharsProgress, ScanChars;
      hide PathStack.Spells, PathStack.Keyed, TextLimit, TextKind;
      var kind := TextKind(isKey);
      ghost var all := ScanChars(cursor.text, cursor.Pos(), 0, TextLimit(limits, isKey), rules);
      var plain, decoded := [], 0;
      ghost var sent: bytes := [];
      StartKey(isKey, path, indices);
      Emit(Begin(kind), path, indices);
      ghost var begun := events;
      SentAtNone(events, path, kind);
      EmptyProgress(all);
      assert sent + plain == [];
      var ended := false;
      while !ended
        invariant cursor.Valid() && |plain| < PLAIN_CAPACITY && SentAt(begun, events, path, kind, sent)
        invariant ReportedAt(old(events), begun, [Located(path, Begin(kind))])
        invariant if ended then all.Good? && all.next == cursor.Pos() && Decode(all.value) == sent
                  else CharsProgress(all, ScanChars(cursor.text, cursor.Pos(), decoded, TextLimit(limits, isKey), rules), sent + plain)
        invariant stack.Spells(path, indices) && stack.Keyed(isKey, sent) && KeyFits(isKey, sent, plain, decoded, cursor.Pos())
        decreases |cursor.text| - cursor.Pos(), if ended then 0 else 1
      {
        ghost var was, more := events, [];
        status, plain, decoded, more := VisitSpans(isKey, plain, decoded, path, indices, all, sent);
        if status != Ok {
          return;
        }
        SentAtMore(begun, was, events, path, kind, sent, more);
        sent := sent + more;
        was := events;
        status, ended, plain, decoded, more := VisitStringByte(isKey, plain, decoded, path, indices, all, sent);
        if status != Ok {
          return;
        }
        SentAtMore(begun, was, events, path, kind, sent, more);
        sent := sent + more;
      }
      status := Ok;
      ghost var body := events;
      Emit(Finish(kind), path, indices);
      StringReportedAt(path, kind, old(events), begun, body, events, sent);
    }

    /** Empties the key of the current frame before a new one is read. */
    method StartKey(isKey: bool, ghost path: seq<bytes>, ghost indices: seq<nat>)
      requires stack.Spells(path, indices)
      modifies stack
      ensures stack.Spells(path, indices) && stack.Keyed(isKey, [])
    {
      hide PathStack.Valid, PathStack.Path, PathStack.Indices, PathStack.Key;
      if isKey {
        stack.BeginKey();
      }
    }

    /** A number whose first byte is already read. */
    method VisitNumber(first: byte, ghost path: seq<bytes>, ghost indices: seq<nat>) returns (status: Status)
      requires Configured() && cursor.Valid() && 0 < cursor.Pos() && cursor.text[cursor.Pos() - 1] == first
      requires stack.Spells(path, indices)
      modifies this`events, cursor, stack
      ensures cursor.Sound() && (status == Ok ==> cursor.Valid()) && stack.Spells(path, indices)
      ensures NodeVisitedAt(ScanNumber(cursor.text, old(cursor.Pos()) - 1, limits), status, cursor.Pos(), path, old(events), events)
    {
      hide Cursor.Valid, Cursor.ValidAhead, Cursor.Sound, Cursor.SourceValid, Cursor.CanUnget, SentAt;
      hide ReportedAt, ScanRun, IsNumber, TextEvents, Overruns, DepthIsAllocatable;
      hide PathStack.Spells;
      Emit(Begin(OfNumber), path, indices);
      ghost var begun := events;
      NeverOverruns(cursor.text, cursor.Pos() - 1, limits);
      var buffer, overrun;
      status, buffer, overrun := ReadNumber(cursor, limits, first);
      if status != Ok {
        return;
      }
      var ok := NumberCheck.IsValidJsonNumber(buffer);
      if !ok {
        return InvalidJson;
      }
      EmitChunk(false, OfNumber, buffer, path, indices, []);
      ghost var body := events;
      Emit(Finish(OfNumber), path, indices);
      StringReportedAt(path, OfNumber, old(events), begun, body, events, buffer);
    }

    /** A literal whose first byte is already read. */
    method VisitLiteral(first: byte, rest: bytes, isBool: bool, ghost word: Word, ghost path: seq<bytes>, ghost indices: seq<nat>)
      returns (status: Status)
      requires Configured() && cursor.Valid() && 0 < cursor.Pos() && stack.Spells(path, indices)
      requires WordText(word) == [first] + rest && isBool == !word.Null?
      modifies this`events, cursor
      ensures cursor.Sound() && (status == Ok ==> cursor.Valid())
      ensures NodeVisitedAt(ScanLiteral(cursor.text, old(cursor.Pos()) - 1, word, limits.maxTotal), status, cursor.Pos(), path, old(events), events)
    {
      hide Cursor.Valid, Cursor.ValidAhead, Cursor.Sound, Cursor.SourceValid, ScanWord, ReportedAt, PathStack.Spells;
      assert WordText(word)[0] == first && WordText(word)[1..] == rest;
      status := ReadWord(cursor, rest);
      if status != Ok {
        return;
      }
      assert AllAt(path, [WordEvent(word)]) == [Located(path, WordEvent(word))];
      if isBool {
        Emit(Boolean(first == 116), path, indices);
      } else {
        Emit(NullValue, path, indices);
      }
    }

    /** An object key, reported at the object, and the colon after it. */
    method VisitKey(ghost path: seq<bytes>, ghost indices: seq<nat>) returns (status: Status)
      requires Configured() && cursor.Valid() && stack.Spells(path, indices)
      modifies this`events, cursor, stack
      ensures cursor.Sound() && (status == Ok ==> cursor.Valid()) && stack.Spells(path, indices)
      ensures var r := ScanKey(cursor.text, old(cursor.Pos()), true, rules);
              if r.Bad? then status == r.status
              else status == Ok && cursor.Pos() == r.next && r.value.1.Key? && stack.Keyed(true, Decode(r.value.1.chars))
                   && ReportedAt(old(events), events, AllAt(path, KeyEvents(r.value.1)))
    {
      hide Cursor.Valid, Cursor.ValidAhead, Cursor.Sound, Cursor.SourceValid, ScanChars;
      hide SkipSpace, ReportedAt, Decode, PathStack.Spells, PathStack.Keyed;
      var ch := cursor.PeekNonspace();
      if ch != QUOTE {
        return InvalidJson;
      }
      ch := cursor.Getc();
      status := VisitString(true, path, indices);
      if status != Ok {
        return;
      }
      ch := cursor.PeekNonspace();
      if ch != COLON {
        return InvalidJson;
      }
      ch := cursor.Getc();
    }

    /** Goes one level down, under the key just read or the entry counter, exactly
        when there is room. */
    method Push(isObject: bool, ghost path: seq<bytes>, ghost indices: seq<nat>, ghost key: Key, ghost index: nat)
      returns (status: Status, ghost indices': seq<nat>)
      requires stack.Spells(path, indices) && index <= SIZE_MAX
      requires isObject == key.Key? && (isObject ==> stack.Keyed(true, Decode(key.chars))) && (!isObject ==> stack.Counted(index))
      modifies stack
      ensures status == if |path| < stack.capacity then Ok else InternalError
      ensures status == Ok ==>
                && stack.Spells(path + [Segment(key, index)], indices')
                && |indices'| == |indices| + 1 && indices'[..|indices|] == indices && (!isObject ==> indices'[|indices|] == index)
      ensures status != Ok ==> stack.Spells(path, indices)
    {
      hide PathStack.Valid, PathStack.Path, PathStack.Indices, PathStack.Key, Decode, Decimal;
      ghost var at := stack.Index();
      if isObject {
        status := stack.PushKey();
      } else {
        status := stack.PushIndex();
      }
      indices' := indices + [at];
    }

    /** Back up from an entry, which counts in an array. */
    method PopEntry(isObject: bool, counts: bool, ghost path: seq<bytes>, ghost indices: seq<nat>,
                    ghost deeper: seq<bytes>, ghost indices': seq<nat>, ghost index: nat)
      requires stack.Spells(deeper, indices') && |deeper| == |path| + 1 && deeper[..|path|] == path && |path| < stack.capacity
      requires |indices'| == |indices| + 1 && indices'[..|indices|] == indices && (!isObject ==> indices'[|indices|] == index)
      requires |indices| == |path|
      modifies stack
      ensures stack.Spells(path, indices) && (!isObject ==> stack.Counted(if counts then index + 1 else index))
    {
      hide PathStack.Path, PathStack.Indices, PathStack.Key;
      stack.Pop();
      if counts && !isObject {
        stack.CountEntry();
      }
    }

    method VisitArray(ghost path: seq<bytes>, ghost indices: seq<nat>) returns (status: Status)
      requires Configured() && cursor.Valid() && stack.Spells(path, indices) && |path| == |indices| == depth
      modifies this, cursor, stack
      ensures depth == old(depth) && stack.Spells(path, indices)
      ensures cursor.Sound() && (status == Ok ==> cursor.Valid())
      ensures if stack.capacity == 0 && FirstEntryReached(cursor.text, old(cursor.Pos()), false, rules) then status == InternalError
              else NodeVisitedAt(BoxAnswer(cursor.text, old(cursor.Pos()), false, depth, rules), status, cursor.Pos(), path, old(events), events)
      decreases |cursor.text| - cursor.Pos(), 2
    {
      hide Cursor.Valid, Cursor.ValidAhead, Cursor.Sound, Cursor.SourceValid, Cursor.Pos, SkipSpace, ReportedAt;
      hide InBodyAt, BodyProgressAt, ScanBody, ScanEntry, ScanValue, ScanKey, EntryEvents, NodeVisitedAt, BoxAnswer;
      hide PathStack.Spells, PathStack.Counted;
      ghost var s, start := cursor.text, cursor.Pos();
      stack.DepthWithinCapacity(path, indices);
      if limits.maxDepth <= depth {
        DepthFailsAt(s, start, false, depth, rules, cursor.Pos(), path, events, events);
        return Overflow;
      }
      RestartIndex(path, indices);
      Emit(ArrayBegin, path, indices);
      ghost var begun, done, index := events, [], 0;
      InBodyAtStarts(s, start, false, depth, rules, path, old(events), begun);
      var first := true;
      while true
        invariant depth == old(depth) && cursor.Valid() && start <= cursor.Pos() && index <= cursor.Pos()
        invariant (first ==> cursor.Pos() == start) && (!first ==> 0 < stack.capacity)
        invariant stack.Spells(path, indices) && stack.Counted(index)
        invariant InBodyAt(s, start, cursor.Pos(), false, first, depth, rules, path, index, old(events), begun, events, done)
        decreases |s| - cursor.Pos()
      {
        ghost var p, was := cursor.Pos(), events;
        BodyByte(s, p, false, first, depth, rules);
        var ch := cursor.PeekNonspace();
        if ch == FAILED || ch == EOF {
          status := if ch == FAILED then Overflow else InvalidJson;
          InBodyAtFails(s, start, p, false, first, depth, rules, path, index, old(events), begun, was, done, status, cursor.Pos(), events);
          return;
        }
        if ch == 93 {
          ch := cursor.Getc();
          Emit(ArrayEnd, path, indices);
          InBodyAtEnds(s, start, p, false, first, depth, rules, path, index, old(events), begun, was, done, cursor.Pos(), events);
          return Ok;
        }
        ghost var q := cursor.Pos();
        ghost var k, x, n;
        status, k, x, n := VisitEntry(false, first, path, indices, index, p);
        if status != Ok {
          if 0 < stack.capacity || ScanKey(s, q, false, rules).Bad? {
            InBodyAtFails(s, start, p, false, first, depth, rules, path, index, old(events), begun, was, done, status, cursor.Pos(), events);
          }
          return;
        }
        InBodyAtEntry(s, start, p, false, first, depth, rules, path, index, old(events), begun, was, done, q, k, x, n, cursor.Pos(), events);
        done, index := done + EntryEvents(k.1, n, path, index), index + 1;
        first := false;
      }
    }

    method VisitObject(ghost path: seq<bytes>, ghost indices: seq<nat>) returns (status: Status)
      requires Configured() && cursor.Valid() && stack.Spells(path, indices) && |path| == |indices| == depth
      modifies this, cursor, stack
      ensures depth == old(depth) && stack.Spells(path, indices)
      ensures cursor.Sound() && (status == Ok ==> cursor.Valid())
      ensures if stack.capacity == 0 && FirstEntryReached(cursor.text, old(cursor.Pos()), true, rules) then status == InternalError
              else NodeVisitedAt(BoxAnswer(cursor.text, old(cursor.Pos()), true, depth, rules), status, cursor.Pos(), path, old(events), events)
      decreases |cursor.text| - cursor.Pos(), 2
    {
      hide Cursor.Valid, Cursor.ValidAhead, Cursor.Sound, Cursor.SourceValid, Cursor.Pos, SkipSpace, ReportedAt;
      hide InBodyAt, BodyProgressAt, ScanBody, ScanEntry, ScanValue, ScanKey, EntryEvents, NodeVisitedAt, BoxAnswer;
      hide PathStack.Spells, PathStack.Counted;
      ghost var s, start := cursor.text, cursor.Pos();
      stack.DepthWithinCapacity(path, indices);
      if limits.maxDepth <= depth {
        DepthFailsAt(s, start, true, depth, rules, cursor.Pos(), path, events, events);
        return Overflow;
      }
      Emit(ObjectBegin, path, indices);
      ghost var begun, done, index := events, [], 0;
      InBodyAtStarts(s, start, true, depth, rules, path, old(events), begun);
      var first := true;
      while true
        invariant depth == old(depth) && cursor.Valid() && start <= cursor.Pos() && index <= cursor.Pos()
        invariant (first ==> cursor.Pos() == start) && (!first ==> 0 < stack.capacity)
        invariant stack.Spells(path, indices)
        invariant InBodyAt(s, start, cursor.Pos(), true, first, depth, rules, path, index, old(events), begun, events, done)
        decreases |s| - cursor.Pos()
      {
        ghost var p, was := cursor.Pos(), events;
        BodyByte(s, p, true, first, depth, rules);
        var ch := cursor.PeekNonspace();
        if ch == FAILED || ch == EOF {
          status := if ch == FAILED then Overflow else InvalidJson;
          InBodyAtFails(s, start, p, true, first, depth, rules, path, index, old(events), begun, was, done, status, cursor.Pos(), events);
          return;
        }
        if ch == 125 {
          ch := cursor.Getc();
          Emit(ObjectEnd, path, indices);
          InBodyAtEnds(s, start, p, true, first, depth, rules, path, index, old(events), begun, was, done, cursor.Pos(), events);
          return Ok;
        }
        ghost var q := cursor.Pos();
        ghost var k, x, n;
        status, k, x, n := VisitEntry(true, first, path, indices, index, p);
        if status != Ok {
          if 0 < stack.capacity || ScanKey(s, q, true, rules).Bad? {
            InBodyAtFails(s, start, p, true, first, depth, rules, path, index, old(events), begun, was, done, status, cursor.Pos(), events);
          }
          return;
        }
        InBodyAtEntry(s, start, p, true, first, depth, rules, path, index, old(events), begun, was, done, q, k, x, n, cursor.Pos(), events);
        done, index := done + EntryEvents(k.1, n, path, index), index + 1;
        first := false;
      }
    }

    method RestartIndex(ghost path: seq<bytes>, ghost indices: seq<nat>)
      requires stack.Spells(path, indices)
      modifies stack
      ensures stack.Spells(path, indices) && stack.Counted(0)
    {
      hide PathStack.Path, PathStack.Indices;
      stack.StartArray();
    }

    /** An entry fails as the scanner says or, without any frame, after its key,
        for lack of room. */
    ghost predicate EntryRefused(s: bytes, p: nat, q: int, isObject: bool, first: bool, status: Status)
      reads this`depth
    {
      if stack.capacity == 0 && 0 <= q && ScanKey(s, q, isObject, rules).Good? then status == InternalError
      else Fails(ScanBody(s, p, isObject, first, depth, rules), status)
    }

    /** The comma unless first, the key of an object entry, and the step down to
        its value. */
    method EnterEntry(isObject: bool, first: bool, ghost path: seq<bytes>, ghost indices: seq<nat>, ghost index: nat, ghost p: nat)
      returns (status: Status, ghost k: (bytes, Key), ghost indices': seq<nat>)
      requires Configured() && cursor.Valid()
      requires cursor.Pos() == SkipSpace(cursor.text, p, limits.maxTotal)
      requires ReadAt(cursor.text, cursor.Pos(), limits.maxTotal).Byte? && cursor.text[cursor.Pos()] != Closer(isObject)
      requires |path| == |indices| == depth < limits.maxDepth && index <= cursor.Pos() && (!first ==> 0 < stack.capacity)
      requires stack.Spells(path, indices) && (!isObject ==> stack.Counted(index))
      modifies this`events, cursor, stack
      ensures cursor.Sound() && (status == Ok ==> cursor.Valid())
      ensures status != Ok ==> stack.Spells(path, indices)
      ensures status != Ok ==> EntryRefused(cursor.text, p, old(cursor.Pos()), isObject, first, status)
      ensures status == Ok ==> 0 < stack.capacity
      ensures var s, q := cursor.text, old(cursor.Pos());
              status == Ok ==>
                && ScanBody(s, p, isObject, first, depth, rules) == ScanEntry(s, p, q, isObject, first, depth, rules)
                && ScanKey(s, if first then q else q + 1, isObject, rules) == Good(k, cursor.Pos())
                && ReportedAt(old(events), events, AllAt(path, KeyEvents(k.1)))
                && stack.Spells(path + [Segment(k.1, index)], indices')
                && |indices'| == |indices| + 1 && indices'[..|indices|] == indices && (!isObject ==> indices'[|indices|] == index)
    {
      hide Cursor.Valid, Cursor.ValidAhead, Cursor.Sound, Cursor.SourceValid, Cursor.Pos, SkipSpace, ReportedAt;
      hide ScanBody, ScanEntry, ScanValue, ScanKey, KeyEvents, Segment, Decode, AllAt;
      hide PathStack.Spells, PathStack.Counted, PathStack.Keyed;
      ghost var s, q := cursor.text, cursor.Pos();
      BodyByte(s, p, isObject, first, depth, rules);
      k, indices' := ([], NoKey), [];
      if !first {
        var ch := cursor.Getc();
        if ch != COMMA {
          return InvalidJson, k, indices';
        }
      }
      ghost var here := cursor.Pos();
      if isObject {
        status := VisitKey(path, indices);
        if status != Ok {
          EntryKeyFails(s, p, q, true, first, depth, rules);
          return;
        }
        k := ScanKey(s, here, true, rules).value;
      } else {
        ArrayHasNoKey(s, here, rules);
        NothingAt(events, path);
      }
      RoomForAll(limits.maxDepth, depth);
      status, indices' := Push(isObject, path, indices, k.1, index);
    }

    /** An entry: its key at the container, its value one segment deeper. */
    method VisitEntry(isObject: bool, first: bool, ghost path: seq<bytes>, ghost indices: seq<nat>, ghost index: nat, ghost p: nat)
      returns (status: Status, ghost k: (bytes, Key), ghost x: nat, ghost n: Node)
      requires Configured() && cursor.Valid()
      requires cursor.Pos() == SkipSpace(cursor.text, p, limits.maxTotal)
      requires ReadAt(cursor.text, cursor.Pos(), limits.maxTotal).Byte? && cursor.text[cursor.Pos()] != Closer(isObject)
      requires |path| == |indices| == depth < limits.maxDepth && index <= cursor.Pos() && (!first ==> 0 < stack.capacity)
      requires stack.Spells(path, indices) && (!isObject ==> stack.Counted(index))
      modifies this, cursor, stack
      ensures depth == old(depth) && stack.Spells(path, indices)
      ensures cursor.Sound() && (status == Ok ==> cursor.Valid() && (!isObject ==> stack.Counted(index + 1)))
      ensures status != Ok ==> EntryRefused(cursor.text, p, old(cursor.Pos()), isObject, first, status)
      ensures status == Ok ==> 0 < stack.capacity
      ensures var s, q := cursor.text, old(cursor.Pos());
              status == Ok ==>
                && ScanBody(s, p, isObject, first, depth, rules) == ScanEntry(s, p, q, isObject, first, depth, rules)
                && ScanKey(s, if first then q else q + 1, isObject, rules) == Good(k, x)
                && ScanValue(s, x, depth + 1, rules) == Good(n, cursor.Pos()) && q < cursor.Pos()
                && ReportedAt(old(events), events, EntryEvents(k.1, n, path, index))
      decreases |cursor.text| - cursor.Pos(), 1
    {
      hide Cursor.Valid, Cursor.ValidAhead, Cursor.Sound, Cursor.SourceValid, Cursor.Pos, SkipSpace, ReportedAt;
      hide ScanBody, ScanEntry, ScanValue, ScanKey, WalkAt, KeyEvents, Segment, AllAt;
      hide PathStack.Spells, PathStack.Counted;
      ghost var s, q, was := cursor.text, cursor.Pos(), events;
      ghost var indices';
      x, n := 0, Literal(Null);
      status, k, indices' := EnterEntry(isObject, first, path, indices, index, p);
      if status != Ok {
        return;
      }
      x := cursor.Pos();
      ghost var keyed, deeper := events, path + [Segment(k.1, index)];
      depth := depth + 1;
      status := VisitValue(deeper, indices');
      depth := depth - 1;
      PopEntry(isObject, status == Ok, path, indices, deeper, indices', index);
      if status != Ok {
        EntryValueFails(s, p, q, isObject, first, depth, rules, k, x);
        return;
      }
      n := ScanValue(s, x, depth + 1, rules).value;
      ReportedAtMore(was, keyed, events, AllAt(path, KeyEvents(k.1)), WalkAt(n, deeper));
    }

    /** A value and the whitespace before it. */
    method VisitValue(ghost path: seq<bytes>, ghost indices: seq<nat>) returns (status: Status)
      requires Configured() && cursor.Valid() && stack.Spells(path, indices) && |path| == |indices| == depth
      modifies this, cursor, stack
      ensures depth == old(depth) && stack.Spells(path, indices)
      ensures cursor.Sound() && (status == Ok ==> cursor.Valid())
      ensures if stack.capacity == 0 && StackFails(cursor.text, old(cursor.Pos()), rules) then status == InternalError
              else NodeVisitedAt(ScanValue(cursor.text, old(cursor.Pos()), depth, rules), status, cursor.Pos(), path, old(events), events)
      decreases |cursor.text| - cursor.Pos(), 0
    {
      hide Cursor.Valid, Cursor.ValidAhead, Cursor.Sound, Cursor.SourceValid, Cursor.Pos, SkipSpace;
      hide ScanNode, WalkAt, ScanChars, ScanNumber, ScanLiteral, BoxAnswer;
      hide PathStack.Spells, PathStack.Keyed, ReportedAt;
      var ch := cursor.PeekNonspace();
      if ch == FAILED {
        return Overflow;
      }
      if ch == EOF {
        return InvalidJson;
      }
      ghost var q := cursor.Pos();
      ch := cursor.Getc();
      NodeByte(cursor.text, q, depth, rules);
      if ch == QUOTE {
        status := VisitString(false, path, indices);
        WalkOfStringAt(ScanChars(cursor.text, q + 1, 0, limits.maxString, rules), path);
      } else if ch == 123 {
        status := VisitObject(path, indices);
      } else if ch == 91 {
        status := VisitArray(path, indices);
      } else if ch == 116 {
        status := VisitLiteral(ch, [114, 117, 101], true, True, path, indices);
      } else if ch == 102 {
        status := VisitLiteral(ch, [97, 108, 115, 101], true, False, path, indices);
      } else if ch == 110 {
        status := VisitLiteral(ch, [117, 108, 108], false, Null, path, indices);
      } else if ch == MINUS || IsDigit(ch) {
        status := VisitNumber(ch, path, indices);
      } else {
        status := InvalidJson;
      }
    }
  }

  // ----- Whole texts -----

  /** What a visit with locations must answer. */
  ghost predicate AnsweredAt(text: bytes, rules: Rules, status: Status, events: seq<Located>) {
    && (status == Ok <==> exists doc :: DocumentAccepted(text, rules, doc))
    && (forall doc :: DocumentAccepted(text, rules, doc) ==> FlatAt(events) == WalkAt(doc.value, []))
    && (status != Ok ==> Fails(ScanDocument(text, rules), status))
  }

  lemma ScanAnswersAt(text: bytes, rules: Rules, status: Status, events: seq<Located>)
    requires rules.paired
    requires var r := ScanDocument(text, rules);
             if r.Bad? then status == r.status else status == Ok && FlatAt(events) == WalkAt(r.value.value, [])
    ensures AnsweredAt(text, rules, status, events)
  {
    hide ScanDocument, DocumentAccepted, WalkAt, FlatAt;
    AcceptsExactlyTheGrammar(text, rules);
    forall doc | DocumentAccepted(text, rules, doc) ensures FlatAt(events) == WalkAt(doc.value, []) {
      DocumentComplete(text, rules, doc);
    }
  }

  /** The answer of a visit with locations. At the largest depth limit the stack
      has no frames, and a text whose first entry is reached ends in an error of
      its own. */
  ghost predicate AnsweredByStack(text: bytes, rules: Rules, status: Status, events: seq<Located>) {
    if rules.limits.maxDepth == SIZE_MAX && StackFails(text, 0, rules) then status == InternalError
    else AnsweredAt(text, rules, status, events)
  }

  /** Visits the one value of a text with locations. No key block is left. The
      limits must be such that all frames are allocated, and that no number can
      overrun its storage. */
  method VisitCursorWithPaths(cursor: Cursor, limits: Limits) returns (status: Status, events: seq<Located>, stack: PathStack)
    requires cursor.Valid() && cursor.Pos() == 0 && cursor.counted && cursor.maxTotal == limits.maxTotal
    requires StorageSuffices(EffectiveLimits(limits)) && DepthIsAllocatable(EffectiveLimits(limits).maxDepth)
    modifies cursor
    ensures AnsweredByStack(cursor.text, Rules(EffectiveLimits(limits), true, AnyLevel), status, events)
    ensures stack.pathDepth == 0 && forall b: nat :: Block(b) !in stack.memory
    ensures status == Ok ==> cursor.totalBytes == |cursor.text| == cursor.NextOffset()
    ensures cursor.Sound() && cursor.leftHas == cursor.hasPushback
    ensures cursor.leftHas ==> cursor.leftOffset < |cursor.text| && cursor.leftByte == cursor.text[cursor.leftOffset]
                               && cursor.leftOffset + 1 == cursor.NextOffset()
  {
    hide ScanDocument, ScanValue, SkipSpace, AnsweredAt, WalkAt, ReportedAt, EffectiveLimits, PathStack.Path, PathStack.Indices;
    hide Cursor.ValidAhead, Cursor.SourceValid, Cursor.Valid, Cursor.Sound, Cursor.Pos, StackFails, StorageSuffices;
    CursorSize(cursor);
    var visitor := new PathVisitor(cursor, limits);
    stack := visitor.stack;
    ghost var s, rules := cursor.text, visitor.rules;
    FramesOrNone(rules.limits.maxDepth);
    status := visitor.VisitValue([], []);
    ghost var stuck := stack.capacity == 0 && StackFails(s, 0, rules);
    if status == Ok {
      ghost var n := ScanValue(s, 0, 0, rules).value;
      ReportedAtFirst(visitor.events, WalkAt(n, []));
      DocumentEnds(s, rules, cursor.Pos(), n);
      var ch := cursor.PeekNonspace();
      if ch != EOF {
        status := InvalidJson;
      }
    } else if !stuck {
      ValueFails(s, rules);
    }
    events := visitor.events;
    stack.Close();
    cursor.LeavePushback();
    Accounted(cursor, status == Ok);
    if !stuck {
      ScanAnswersAt(s, rules, status, events);
    }
  }

  lemma FramesOrNone(maxDepth: nat)
    requires DepthIsAllocatable(maxDepth)
    ensures PathCapacity(maxDepth) == 0 <==> maxDepth == SIZE_MAX
  {
  }

  lemma CursorSize(cursor: Cursor)
    requires cursor.Valid()
    ensures |cursor.text| <= SIZE_MAX
  {
  }

  // ----- The two visitors agree -----

  /** Locations erased, the visitor with them reports what the one without does,
      and ends with the same status: unless the stack has no frames and the first
      entry of a container is reached. Exactly then the two disagree, and the error
      for a bad path stack is returned. */
  lemma ErasedPathsAgree(text: bytes, rules: Rules, status: Status, events: seq<Event>, status': Status, events': seq<Located>)
    requires rules.paired
    requires Answered(text, rules, status, events) && AnsweredByStack(text, rules, status', events')
    ensures var stuck := rules.limits.maxDepth == SIZE_MAX && StackFails(text, 0, rules);
            && (status != status' <==> stuck) && (status' == InternalError <==> stuck)
    ensures status == Ok == status' ==> Flat(Erase(events')) == Flat(events)
  {
    hide ScanDocument, DocumentAccepted, Walk, WalkAt, Flat, FlatAt, StackFails;
    if status == Ok == status' {
      var doc :| DocumentAccepted(text, rules, doc);
      FlatErased(events');
      ErasedWalk(doc.value, []);
    }
  }

  /** An array of one number, within all limits: at the largest depth limit the
      visitor with locations refuses it. */
  lemma OneEntryIsRefused(limits: Limits)
    requires limits.maxDepth == SIZE_MAX && !Exceeds(limits.maxTotal, 3) && limits.maxNumber != 0
    ensures var s, rules := [91, 49, 93], Rules(limits, true, AnyLevel);
            && StackFails(s, 0, rules)
            && DocumentAccepted(s, rules, Document([], Box(false, Entry([], [], NoKey, [], Num([49]), End([]))), []))
  {
    var s: bytes := [91, 49, 93];
    var n := Number(false, [49], [], NoExponent);
    assert NumberWellFormed(n) && NumberText(n) == [49];
    assert BodyText(false, End([]), false) == [93];
    assert BodyText(false, Entry([], [], NoKey, [], Num([49]), End([])), true) == [] + ([] + ([] + ([] + ([] + ([49] + [93])))));
    assert s == [] + (([91] + ([] + ([] + ([] + ([] + ([] + ([49] + [93]))))))) + []);
  }
}
