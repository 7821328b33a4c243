/** The events a visitor receives, and the walk over a tree they must make. */
module Trace {
  import opened Bytes
  import opened Grammar

  datatype Kind = OfKey | OfString | OfNumber

  datatype Event =
    | ObjectBegin | ObjectEnd | ArrayBegin | ArrayEnd
    | Begin(kind: Kind) | Chunk(kind: Kind, data: bytes) | Finish(kind: Kind)
    | Boolean(value: bool) | NullValue

  // ----- Joining chunks -----

  /** A text as one chunk per byte. */
  ghost function Explode(kind: Kind, data: bytes): seq<Event> {
    seq(|data|, i requires 0 <= i < |data| => Chunk(kind, [data[i]]))
  }

  ghost function Flat1(e: Event): seq<Event> {
    if e.Chunk? then Explode(e.kind, e.data) else [e]
  }

  /** The normal form of a trace: every chunk cut into chunks of one byte. Two
      traces have the same normal form exactly when they differ only in where
      texts are cut into chunks. */
  ghost function Flat(t: seq<Event>): seq<Event> {
    if t == [] then [] else Flat(t[..|t| - 1]) + Flat1(t[|t| - 1])
  }

  lemma FlatAppend(t: seq<Event>, e: Event)
    ensures Flat(t + [e]) == Flat(t) + Flat1(e)
  {
    assert (t + [e])[..|t|] == t;
  }

  lemma ExplodeConcat(kind: Kind, a: bytes, b: bytes)
    ensures Explode(kind, a + b) == Explode(kind, a) + Explode(kind, b)
  {
  }

  // ----- The walk -----

  ghost function TextEvents(kind: Kind, data: bytes): seq<Event> {
    [Begin(kind)] + Explode(kind, data) + [Finish(kind)]
  }

  ghost function WordEvent(w: Word): Event {
    match w
    case True => Boolean(true)
    case False => Boolean(false)
    case Null => NullValue
  }

  ghost function OpenEvent(isObject: bool): Event {
    if isObject then ObjectBegin else ArrayBegin
  }

  ghost function CloseEvent(isObject: bool): Event {
    if isObject then ObjectEnd else ArrayEnd
  }

  ghost function KeyEvents(k: Key): seq<Event> {
    if k.Key? then TextEvents(OfKey, Decode(k.chars)) else []
  }

  /** The pre-order walk of a tree, keys and strings decoded. */
  ghost function Walk(n: Node): seq<Event>
    decreases n
  {
    match n
    case Literal(w) => [WordEvent(w)]
    case Num(token) => TextEvents(OfNumber, token)
    case Str(c) => TextEvents(OfString, Decode(c))
    case Box(isObject, b) => [OpenEvent(isObject)] + WalkBody(b) + [CloseEvent(isObject)]
  }

  ghost function WalkBody(b: Body): seq<Event>
    decreases b
  {
    match b
    case End(_) => []
    case Entry(_, _, key, _, value, rest) => KeyEvents(key) + Walk(value) + WalkBody(rest)
  }

  // ----- The walk with locations -----

  /** An event and the location it is reported at: object keys and decimal array
      indices from the root. */
  datatype Located = Located(path: seq<bytes>, event: Event)

  ghost function AllAt(path: seq<bytes>, t: seq<Event>): seq<Located> {
    seq(|t|, i requires 0 <= i < |t| => Located(path, t[i]))
  }

  ghost function Erase(t: seq<Located>): seq<Event> {
    seq(|t|, i requires 0 <= i < |t| => t[i].event)
  }

  function Decimal(n: nat): (d: bytes)
    ensures d != [] && AllDigits(d)
  {
    if n < 10 then [ZERO + n] else Decimal(n / 10) + [ZERO + n % 10]
  }

  ghost function Segment(key: Key, index: nat): bytes {
    if key.Key? then Decode(key.chars) else Decimal(index)
  }

  ghost function WalkAt(n: Node, path: seq<bytes>): seq<Located>
    decreases n
  {
    match n
    case Box(isObject, b) =>
      [Located(path, OpenEvent(isObject))] + WalkBodyAt(b, path, 0) + [Located(path, CloseEvent(isObject))]
    case _ => AllAt(path, Walk(n))
  }

  /** `index` is the number of entries before. A key is reported at the location
      of its object, the value under it one segment deeper. */
  ghost function WalkBodyAt(b: Body, path: seq<bytes>, index: nat): seq<Located>
    decreases b
  {
    match b
    case End(_) => []
    case Entry(_, _, key, _, value, rest) =>
      AllAt(path, KeyEvents(key)) + WalkAt(value, path + [Segment(key, index)]) + WalkBodyAt(rest, path, index + 1)
  }

  /** The normal form of a trace with locations. */
  ghost function FlatAt(t: seq<Located>): seq<Located> {
    if t == [] then [] else FlatAt(t[..|t| - 1]) + AllAt(t[|t| - 1].path, Flat1(t[|t| - 1].event))
  }

  lemma FlatAtAppend(t: seq<Located>, l: Located)
    ensures FlatAt(t + [l]) == FlatAt(t) + AllAt(l.path, Flat1(l.event))
  {
    assert (t + [l])[..|t|] == t;
  }

  lemma AllAtConcat(path: seq<bytes>, a: seq<Event>, b: seq<Event>)
    ensures AllAt(path, a + b) == AllAt(path, a) + AllAt(path, b)
  {
  }

  /** Joining chunks and erasing locations commute. */
  lemma {:induction false} FlatErased(t: seq<Located>)
    ensures Erase(FlatAt(t)) == Flat(Erase(t))
  {
    if t != [] {
      var rest, l := t[..|t| - 1], t[|t| - 1];
      FlatErased(rest);
      EraseConcat(FlatAt(rest), AllAt(l.path, Flat1(l.event)));
      assert Erase(AllAt(l.path, Flat1(l.event))) == Flat1(l.event);
      assert Erase(t) == Erase(rest) + [l.event];
      FlatAppend(Erase(rest), l.event);
    }
  }

  lemma {:induction false} ErasedWalk(n: Node, path: seq<bytes>)
    ensures Erase(WalkAt(n, path)) == Walk(n)
    decreases n
  {
    if n.Box? {
      ErasedWalkBody(n.body, path, 0);
      assert Erase([Located(path, OpenEvent(n.isObject))]) == [OpenEvent(n.isObject)];
    }
  }

  lemma {:induction false} ErasedWalkBody(b: Body, path: seq<bytes>, index: nat)
    ensures Erase(WalkBodyAt(b, path, index)) == WalkBody(b)
    decreases b
  {
    if b.Entry? {
      ErasedWalk(b.value, path + [Segment(b.key, index)]);
      ErasedWalkBody(b.rest, path, index + 1);
      var k, v := AllAt(path, KeyEvents(b.key)), WalkAt(b.value, path + [Segment(b.key, index)]);
      EraseConcat(k, v);
      EraseConcat(k + v, WalkBodyAt(b.rest, path, index + 1));
      assert Erase(k) == KeyEvents(b.key);
    }
  }

  lemma EraseConcat(a: seq<Located>, b: seq<Located>)
    ensures Erase(a + b) == Erase(a) + Erase(b)
  {
  }

  /** Distinct indices have distinct segments. */
  lemma {:induction false} DecimalInjective(a: nat, b: nat)
    requires Decimal(a) == Decimal(b)
    ensures a == b
    decreases a
  {
    var d, e := Decimal(a), Decimal(b);
    assert d[|d| - 1] == e[|e| - 1];
    if 10 <= a && 10 <= b {
      assert d[..|d| - 1] == Decimal(a / 10) && e[..|e| - 1] == Decimal(b / 10);
      DecimalInjective(a / 10, b / 10);
    }
  }
}
