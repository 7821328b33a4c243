/** Where located events are reported, by the events alone: a stack of the containers
    that are open, each with its current key or index. */
module Locations {
  import opened Bytes
  import opened Grammar
  import opened Scanner
  import opened GrammarProofs
  import opened Trace
  import opened PathVisitors

  /** An open container: the key its object has come to, or the number of values
      that its array has had. */
  datatype Frame = Member(key: bytes) | Element(index: nat)

  /** The number that digits spell. */
  function Positional(d: bytes): int {
    if d == [] then 0 else Positional(d[..|d| - 1]) * 10 + (d[|d| - 1] - '0' as int)
  }

  /** The decimal text of a number: digits without a leading zero. */
  ghost predicate Spells(d: bytes, n: nat) {
    && d != [] && (forall i :: 0 <= i < |d| ==> '0' as int <= d[i] <= '9' as int)
    && (d[0] == '0' as int ==> |d| == 1) && Positional(d) == n
  }

  lemma {:induction false} DecimalSpells(n: nat)
    ensures Spells(Decimal(n), n)
    decreases n
  {
    var d := Decimal(n);
    if 10 <= n {
      DecimalSpells(n / 10);
      assert d[..|d| - 1] == Decimal(n / 10) && d[0] == Decimal(n / 10)[0];
      NoLeadingZero(n / 10);
    }
  }

  lemma {:induction false} NoLeadingZero(n: nat)
    requires 0 < n
    ensures Decimal(n)[0] != '0' as int
    decreases n
  {
    if 10 <= n {
      NoLeadingZero(n / 10);
    }
  }

  /** The path names the frames from the root. */
  ghost predicate Names(path: seq<bytes>, fs: seq<Frame>) {
    |path| == |fs| && forall i :: 0 <= i < |path| ==> NamesOne(path[i], fs[i])
  }

  ghost predicate NamesOne(segment: bytes, f: Frame) {
    match f
    case Member(key) => segment == key
    case Element(index) => Spells(segment, index)
  }

  /** Events of a container itself: its keys and its end. */
  predicate OfContainer(e: Event) {
    match e
    case Begin(kind) => kind == OfKey
    case Chunk(kind, _) => kind == OfKey
    case Finish(kind) => kind == OfKey
    case ObjectEnd | ArrayEnd => true
    case _ => false
  }

  /** A value belongs under every frame, a key or an end under all but the last. */
  ghost predicate Placed(l: Located, fs: seq<Frame>) {
    if OfContainer(l.event) then fs != [] && Names(l.path, fs[..|fs| - 1]) else Names(l.path, fs)
  }

  /** A value has ended: an array counts it. */
  function Advance(fs: seq<Frame>): seq<Frame> {
    if fs != [] && fs[|fs| - 1].Element? then fs[..|fs| - 1] + [Element(fs[|fs| - 1].index + 1)] else fs
  }

  function WithKey(fs: seq<Frame>, key: bytes): seq<Frame> {
    if fs == [] then fs else fs[..|fs| - 1] + [Member(key)]
  }

  function KeySoFar(fs: seq<Frame>): bytes {
    if fs != [] && fs[|fs| - 1].Member? then fs[|fs| - 1].key else []
  }

  function After(e: Event, fs: seq<Frame>): seq<Frame> {
    match e
    case ObjectBegin => fs + [Member([])]
    case ArrayBegin => fs + [Element(0)]
    case ObjectEnd | ArrayEnd => if fs == [] then fs else Advance(fs[..|fs| - 1])
    case Boolean(_) | NullValue => Advance(fs)
    case Begin(kind) => if kind == OfKey then WithKey(fs, []) else fs
    case Chunk(kind, data) => if kind == OfKey then WithKey(fs, KeySoFar(fs) + data) else fs
    case Finish(kind) => if kind == OfKey then fs else Advance(fs)
  }

  /** Read from `fs`, every event of the trace is placed, and `gs` is left. */
  ghost predicate Follows(t: seq<Located>, fs: seq<Frame>, gs: seq<Frame>)
    decreases |t|
  {
    if t == [] then fs == gs else Placed(t[0], fs) && Follows(t[1..], After(t[0].event, fs), gs)
  }

  lemma {:induction false} FollowsMore(a: seq<Located>, b: seq<Located>, fs: seq<Frame>, gs: seq<Frame>, hs: seq<Frame>)
    requires Follows(a, fs, gs) && Follows(b, gs, hs)
    ensures Follows(a + b, fs, hs)
    decreases |a|
  {
    hide Placed, After;
    if a == [] {
      assert a + b == b;
    } else {
      assert (a + b)[1..] == a[1..] + b && (a + b)[0] == a[0];
      FollowsMore(a[1..], b, After(a[0].event, fs), gs, hs);
    }
  }

  lemma FollowsOne(path: seq<bytes>, e: Event, fs: seq<Frame>)
    requires Placed(Located(path, e), fs)
    ensures Follows([Located(path, e)], fs, After(e, fs))
  {
    hide Placed, After;
    assert [Located(path, e)][1..] == [];
  }

  lemma {:induction false} ChunksFollow(path: seq<bytes>, kind: Kind, data: bytes, fs: seq<Frame>)
    requires kind != OfKey && Names(path, fs)
    ensures Follows(AllAt(path, Explode(kind, data)), fs, fs)
    decreases |data|
  {
    var t := AllAt(path, Explode(kind, data));
    if data != [] {
      ChunksFollow(path, kind, data[1..], fs);
      assert t[1..] == AllAt(path, Explode(kind, data[1..]));
    }
  }

  lemma {:induction false} KeyChunksFollow(path: seq<bytes>, data: bytes, fs: seq<Frame>, key: bytes)
    requires Names(path, fs)
    ensures Follows(AllAt(path, Explode(OfKey, data)), fs + [Member(key)], fs + [Member(key + data)])
    decreases |data|
  {
    hide Names;
    var t, top := AllAt(path, Explode(OfKey, data)), fs + [Member(key)];
    assert top[..|top| - 1] == fs;
    if data == [] {
      assert key + data == key;
    } else {
      KeyChunksFollow(path, data[1..], fs, key + data[..1]);
      assert t[1..] == AllAt(path, Explode(OfKey, data[1..]));
      assert key + data[..1] + data[1..] == key + data;
      assert data[..1] == [data[0]];
    }
  }

  lemma TextFollows(path: seq<bytes>, kind: Kind, data: bytes, fs: seq<Frame>)
    requires kind != OfKey && Names(path, fs)
    ensures Follows(AllAt(path, TextEvents(kind, data)), fs, Advance(fs))
  {
    hide Follows, Names, Advance;
    FollowsOne(path, Begin(kind), fs);
    ChunksFollow(path, kind, data, fs);
    FollowsOne(path, Finish(kind), fs);
    var a, b, c := AllAt(path, [Begin(kind)]), AllAt(path, Explode(kind, data)), AllAt(path, [Finish(kind)]);
    assert a == [Located(path, Begin(kind))] && c == [Located(path, Finish(kind))];
    FollowsMore(a, b, fs, fs, fs);
    FollowsMore(a + b, c, fs, fs, Advance(fs));
    assert AllAt(path, TextEvents(kind, data)) == a + b + c;
  }

  lemma KeyFollows(path: seq<bytes>, data: bytes, fs: seq<Frame>, key: bytes)
    requires Names(path, fs)
    ensures Follows(AllAt(path, TextEvents(OfKey, data)), fs + [Member(key)], fs + [Member(data)])
  {
    hide Follows, Names;
    var from, mid, to := fs + [Member(key)], fs + [Member([])], fs + [Member(data)];
    assert from[..|from| - 1] == fs && to[..|to| - 1] == fs;
    FollowsOne(path, Begin(OfKey), from);
    KeyChunksFollow(path, data, fs, []);
    assert [] + data == data;
    FollowsOne(path, Finish(OfKey), to);
    var a, b, c := AllAt(path, [Begin(OfKey)]), AllAt(path, Explode(OfKey, data)), AllAt(path, [Finish(OfKey)]);
    assert a == [Located(path, Begin(OfKey))] && c == [Located(path, Finish(OfKey))];
    FollowsMore(a, b, from, mid, to);
    FollowsMore(a + b, c, from, to, to);
    assert AllAt(path, TextEvents(OfKey, data)) == a + b + c;
  }

  lemma NamesMore(path: seq<bytes>, fs: seq<Frame>, segment: bytes, f: Frame)
    requires Names(path, fs) && NamesOne(segment, f)
    ensures Names(path + [segment], fs + [f])
  {
  }

  lemma {:induction false} WalkFollows(n: Node, path: seq<bytes>, fs: seq<Frame>)
    requires NodeWellFormed(n) && Names(path, fs)
    ensures Follows(WalkAt(n, path), fs, Advance(fs))
    decreases n
  {
    hide Follows, Names, Advance, IsNumber, CharsWellFormed, BodyWellFormed, Explode, Decode;
    match n
    case Literal(w) =>
      FollowsOne(path, WordEvent(w), fs);
      assert AllAt(path, Walk(n)) == [Located(path, WordEvent(w))];
    case Num(token) => TextFollows(path, OfNumber, token, fs);
    case Str(c) => TextFollows(path, OfString, Decode(c), fs);
    case Box(isObject, b) =>
      var top := if isObject then Member([]) else Element(0);
      FollowsOne(path, OpenEvent(isObject), fs);
      var last := BodyFollows(isObject, b, path, fs, top, 0, true);
      var gs := fs + [last];
      assert gs[..|gs| - 1] == fs;
      FollowsOne(path, CloseEvent(isObject), gs);
      var open, close := [Located(path, OpenEvent(isObject))], [Located(path, CloseEvent(isObject))];
      FollowsMore(open, WalkBodyAt(b, path, 0), fs, fs + [top], gs);
      FollowsMore(open + WalkBodyAt(b, path, 0), close, fs, gs, Advance(fs));
  }

  /** The entries from `index` on; the last key or the number of entries is left. */
  lemma {:induction false} BodyFollows(isObject: bool, b: Body, path: seq<bytes>, fs: seq<Frame>, top: Frame, index: nat, first: bool)
    returns (last: Frame)
    requires BodyWellFormed(isObject, b, first) && Names(path, fs)
    requires if isObject then top.Member? else top == Element(index)
    ensures Follows(WalkBodyAt(b, path, index), fs + [top], fs + [last])
    decreases b
  {
    hide Follows, Names, NodeWellFormed, WalkAt, Explode, Decode, CharsWellFormed;
    if b.End? {
      last := top;
      FollowsNone(fs + [top]);
    } else {
      var seg := Segment(b.key, index);
      var here, next := EntryFrame(isObject, b.key, path, fs, top, index);
      NamesMore(path, fs, seg, here);
      WalkFollows(b.value, path + [seg], fs + [here]);
      last := BodyFollows(isObject, b.rest, path, fs, next, index + 1, false);
      var k, v, r := AllAt(path, KeyEvents(b.key)), WalkAt(b.value, path + [seg]), WalkBodyAt(b.rest, path, index + 1);
      FollowsMore(k, v, fs + [top], fs + [here], fs + [next]);
      FollowsMore(k + v, r, fs + [top], fs + [next], fs + [last]);
    }
  }

  lemma FollowsNone(fs: seq<Frame>)
    ensures Follows([], fs, fs)
  {
  }

  /** The frame a value stands under, and the one after it. */
  lemma EntryFrame(isObject: bool, key: Key, path: seq<bytes>, fs: seq<Frame>, top: Frame, index: nat) returns (here: Frame, next: Frame)
    requires KeyWellFormed(isObject, key) && Names(path, fs)
    requires if isObject then top.Member? else top == Element(index)
    ensures Follows(AllAt(path, KeyEvents(key)), fs + [top], fs + [here]) && NamesOne(Segment(key, index), here)
    ensures Advance(fs + [here]) == fs + [next] && (if isObject then next.Member? else next == Element(index + 1))
  {
    hide Follows, Names, Spells, Explode, Decode, CharsWellFormed;
    if isObject {
      here := Member(Decode(key.chars));
      next := here;
      KeyFollows(path, Decode(key.chars), fs, top.key);
    } else {
      here, next := top, Element(index + 1);
      DecimalSpells(index);
      FollowsNone(fs + [top]);
      assert AllAt(path, KeyEvents(key)) == [];
      assert (fs + [here])[..|fs|] == fs;
    }
  }

  /** The joined trace of an accepted visit with locations: every event is reported
      where the events before it have led. */
  lemma EventsArePlaced(text: bytes, rules: Rules, events: seq<Located>)
    requires AnsweredByStack(text, rules, Ok, events)
    ensures Follows(FlatAt(events), [], [])
  {
    hide ScanDocument, Follows, WalkAt, FlatAt, StackFails, NodeWellFormed, NodeWithin, DocumentText;
    var doc :| DocumentAccepted(text, rules, doc);
    WalkFollows(doc.value, [], []);
  }
}
