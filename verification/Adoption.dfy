/** Adopting the blocks an existing value already owns: the walk that visits only
    the fields of the adopt mask does what the scan of every field does. */
module Adoptions {
  import opened Bytes
  import opened Schemas
  import opened SchemaProofs
  import opened MapCaches
  import opened Ledgers
  import opened Ownerships

  /** The parser's budget: live bytes, blocks, and whether it failed. */
  datatype Book = Book(live: nat, blocks: seq<Block>, failed: bool)

  /** One owned pointer. Without a limit nothing is counted. */
  ghost function AdoptOne(max: nat, s: Book, p: Ptr): Book {
    if max == 0 then s
    else
      var (live, blocks, ok) := Adopted(max, s.live, s.blocks, p);
      Book(live, blocks, !ok)
  }

  /** Pointers one after the other, up to the first that does not fit. */
  ghost function AdoptAll(max: nat, s: Book, ps: seq<Ptr>): Book
    decreases |ps|
  {
    if ps == [] || s.failed then s else AdoptAll(max, AdoptOne(max, s, ps[0]), ps[1..])
  }

  lemma {:induction false} AdoptConcat(max: nat, s: Book, a: seq<Ptr>, b: seq<Ptr>)
    ensures AdoptAll(max, s, a + b) == AdoptAll(max, AdoptAll(max, s, a), b)
    decreases |a|
  {
    hide AdoptOne;
    if a == [] {
      assert a + b == b;
    } else if !s.failed {
      assert (a + b)[1..] == a[1..] + b;
      AdoptConcat(max, AdoptOne(max, s, a[0]), a[1..], b);
    }
  }

  // ----- The full scan -----

  /** The owned pointers that a scan of every field attempts to adopt, in order. */
  ghost function MapPtrs(g: Schema, link: Link, v: FieldValue): seq<Ptr>
    requires Closed(g) && (link.MapLink? ==> link.id < |g|)
    decreases v, 2
  {
    if link.NoMap? || !v.Struct? then [] else ScanFrom(g, link.id, v, 0)
  }

  ghost function ScanFrom(g: Schema, m: nat, v: FieldValue, i: nat): seq<Ptr>
    requires Closed(g) && m < |g| && v.Struct?
    decreases v, 1, |v.fields| - i
  {
    if |g[m].fields| <= i || |v.fields| <= i then []
    else (if FieldFits(g, g[m], g[m].fields[i]) then FieldPtrs(g, g[m].fields[i], v.fields[i]) else []) + ScanFrom(g, m, v, i + 1)
  }

  /** An embedded structure is entered only when its map may allocate. */
  ghost function FieldPtrs(g: Schema, f: Field, v: FieldValue): seq<Ptr>
    requires Closed(g)
    decreases v, 3
  {
    match f.kind
    case StringField => if f.storage == Dynamic && v.Pointer? then [v.p] else []
    case StringStream | Base64Stream | StringSource | Base64Source => if v.Pointer? then [v.p] else []
    case JsonField => if v.Json? then [v.json, v.path] else []
    case Object => if LinkOk(g, f) && Fresh(g, f.submap).mayAllocate then MapPtrs(g, f.submap, v) else []
    case StringArray => if v.Items? then (if v.owns then [v.items] else []) + v.strings else []
    case I64Array | U64Array | F64Array | BoolArray => if v.Items? && v.owns then [v.items] else []
    case ObjectArray =>
      if !v.Objects? then []
      else
        (if v.ownsObjects then [v.objects] else [])
        + (if !LinkOk(g, f) || f.submap.NoMap? || v.objects.Null? || (!v.ownsObjects && !Fresh(g, f.submap).mayAllocate) then []
           else ElemPtrs(g, f.submap, v, 0))
    case _ => []
  }

  ghost function ElemPtrs(g: Schema, link: Link, v: FieldValue, k: nat): seq<Ptr>
    requires Closed(g) && (link.MapLink? ==> link.id < |g|) && v.Objects?
    decreases v, 1, |v.elems| - k
  {
    if |v.elems| <= k then [] else MapPtrs(g, link, v.elems[k]) + ElemPtrs(g, link, v, k + 1)
  }

  /** A field outside the mask of a valid map holds nothing to adopt. */
  lemma NothingOutsideMask(g: Schema, m: nat, j: nat, v: FieldValue)
    requires Closed(g) && m < |g| && Analyze(g, m, {}).valid && j < |g[m].fields| <= MASK_BITS
    requires j !in Analyze(g, m, {}).adoptMask
    ensures FieldPtrs(g, g[m].fields[j], v) == []
  {
    hide Analyze, MapPtrs;
    AdoptBitIsFresh(g, m, j);
  }

  /** The walk of a field may find something in it. */
  ghost predicate FieldMayHold(g: Schema, f: Field)
    requires Closed(g)
  {
    exists v :: FieldPtrs(g, f, v) != []
  }

  /** The mask misses nothing and has nothing to spare: besides the objects whose maps
      may allocate it has exactly the fields in which the walk may find something. */
  lemma MaskBitMeans(g: Schema, m: nat, j: nat)
    requires Closed(g) && m < |g| && Analyze(g, m, {}).valid && j < |g[m].fields| <= MASK_BITS
    ensures var f := g[m].fields[j];
            j in Analyze(g, m, {}).adoptMask <==>
              if f.kind == Object then LinkOk(g, f) && Fresh(g, f.submap).mayAllocate else FieldMayHold(g, f)
  {
    hide Analyze, AlwaysAdopts;
    var f := g[m].fields[j];
    AdoptBitIsFresh(g, m, j);
    ValidField(g, m, j);
    if f.kind == Object {
      assert !AlwaysAdopts(f) && f.submap.MapLink? by { EmbeddedMapOf(g, m, j); }
    } else {
      HoldsSomething(g, f);
    }
  }

  lemma EmbeddedMapOf(g: Schema, m: nat, j: nat)
    requires Closed(g) && m < |g| && Analyze(g, m, {}).valid && j < |g[m].fields| && g[m].fields[j].kind == Object
    ensures !AlwaysAdopts(g[m].fields[j]) && g[m].fields[j].submap.MapLink?
  {
    hide Analyze;
    ValidLocally(g, m, {});
    EmbeddedMap(g, m, j);
  }

  lemma HoldsSomething(g: Schema, f: Field)
    requires Closed(g) && f.kind != Object
    ensures AlwaysAdopts(f) <==> FieldMayHold(g, f)
    ensures f.kind == ObjectArray ==> AlwaysAdopts(f)
  {
    hide Analyze, MapPtrs, ElemPtrs;
    match f.kind
    case StringField => assert f.storage == Dynamic ==> FieldPtrs(g, f, Pointer(Null)) != [];
    case StringStream | Base64Stream | StringSource | Base64Source => assert FieldPtrs(g, f, Pointer(Null)) != [];
    case JsonField => assert FieldPtrs(g, f, Json(Null, Null)) != [];
    case StringArray | I64Array | U64Array | F64Array | BoolArray => assert FieldPtrs(g, f, Items(true, Null, [])) != [];
    case ObjectArray => assert FieldPtrs(g, f, Objects(true, Null, [])) != [];
    case _ =>
  }

  /** Every value that is walked has the shape its map describes: the links of its
      fields lead to maps, and pointers may be used. */
  ghost predicate Shaped(g: Schema, link: Link, v: FieldValue)
    requires Closed(g) && (link.MapLink? ==> link.id < |g|)
    decreases v, 2
  {
    link.MapLink? ==>
      && v.Struct? && |v.fields| == |g[link.id].fields|
      && forall i :: 0 <= i < |v.fields| ==> ShapedField(g, g[link.id].fields[i], v.fields[i])
  }

  ghost predicate ShapedField(g: Schema, f: Field, v: FieldValue)
    requires Closed(g)
    decreases v, 3
  {
    && LinkOk(g, f)
    && match f.kind
       case StringField => f.storage == Dynamic ==> v.Pointer?
       case StringStream | Base64Stream | StringSource | Base64Source => v.Pointer?
       case JsonField => v.Json?
       case Object => Shaped(g, f.submap, v)
       case StringArray | I64Array | U64Array | F64Array | BoolArray => v.Items?
       case ObjectArray => v.Objects? && forall k :: 0 <= k < |v.elems| ==> Shaped(g, f.submap, v.elems[k])
       case _ => true
  }

  lemma FailedStays(max: nat, s: Book, ps: seq<Ptr>)
    requires s.failed
    ensures AdoptAll(max, s, ps) == s
  {
  }

  lemma {:induction false} NoLimitNothing(s: Book, ps: seq<Ptr>)
    ensures AdoptAll(0, s, ps) == s
    decreases |ps|
  {
    if ps != [] && !s.failed {
      NoLimitNothing(s, ps[1..]);
    }
  }

  /** Fields from `i` up to `j` have nothing to adopt. */
  lemma {:induction false} SkipFields(g: Schema, m: nat, v: FieldValue, i: nat, j: nat)
    requires Closed(g) && m < |g| && v.Struct? && i <= j <= |g[m].fields|
    requires forall k :: i <= k < j && k < |v.fields| ==> FieldPtrs(g, g[m].fields[k], v.fields[k]) == []
    ensures ScanFrom(g, m, v, i) == ScanFrom(g, m, v, j)
    decreases j - i
  {
    hide FieldPtrs, FieldFits;
    if i < j {
      SkipFields(g, m, v, i + 1, j);
      if |v.fields| <= i {
        assert ScanFrom(g, m, v, j) == [];
      }
    }
  }

  lemma ScanStep(g: Schema, m: nat, v: FieldValue, i: nat)
    requires Closed(g) && m < |g| && v.Struct? && i < |g[m].fields| == |v.fields| && FieldFits(g, g[m], g[m].fields[i])
    ensures ScanFrom(g, m, v, i) == FieldPtrs(g, g[m].fields[i], v.fields[i]) + ScanFrom(g, m, v, i + 1)
  {
    hide FieldPtrs, FieldFits;
  }

  lemma ScanEnds(g: Schema, m: nat, v: FieldValue)
    requires Closed(g) && m < |g| && v.Struct?
    ensures ScanFrom(g, m, v, |g[m].fields|) == []
  {
  }

  // ----- The walk and what a value owns -----

  lemma {:induction false} TypedIsShaped(g: Schema, link: Link, v: FieldValue)
    requires Closed(g) && (link.MapLink? ==> link.id < |g|) && Typed(g, link, v)
    ensures Shaped(g, link, v)
    decreases v, 2
  {
    hide TypedField, ShapedField;
    forall i | 0 <= i < |v.fields| ensures ShapedField(g, g[link.id].fields[i], v.fields[i]) {
      TypedFieldIsShaped(g, g[link.id].fields[i], v.fields[i]);
    }
  }

  lemma {:induction false} TypedFieldIsShaped(g: Schema, f: Field, v: FieldValue)
    requires Closed(g) && TypedField(g, f, v)
    ensures ShapedField(g, f, v)
    decreases v, 3
  {
    hide Typed, Shaped;
    if f.kind == Object {
      TypedIsShaped(g, f.submap, v);
    } else if f.kind == ObjectArray {
      forall k | 0 <= k < |v.elems| ensures Shaped(g, f.submap, v.elems[k]) {
        TypedIsShaped(g, f.submap, v.elems[k]);
      }
    }
  }

  /** The walk attempts exactly the pointers that a value owns, in order: what it
      passes over owns nothing. */
  lemma {:induction false} WalkIsOwned(g: Schema, m: nat, v: FieldValue)
    requires Closed(g) && m < |g| && Analyze(g, m, {}).valid && Typed(g, MapLink(m), v)
    ensures MapPtrs(g, MapLink(m), v) == Owned(v)
    decreases v, 2
  {
    hide Analyze, TypedField, FieldFits, FieldPtrs, ScanFrom, OwnedIn;
    forall j | 0 <= j < |v.fields|
      ensures FieldFits(g, g[m], g[m].fields[j]) && FieldPtrs(g, g[m].fields[j], v.fields[j]) == Owned(v.fields[j])
    {
      ValidField(g, m, j);
      assert TypedField(g, g[m].fields[j], v.fields[j]);
      FieldWalkIsOwned(g, g[m].fields[j], v.fields[j]);
    }
    ScanIsOwned(g, m, v, 0);
    OwnedOfStruct(v);
  }

  lemma {:induction false} ScanIsOwned(g: Schema, m: nat, v: FieldValue, i: nat)
    requires Closed(g) && m < |g| && v.Struct? && |v.fields| == |g[m].fields|
    requires forall j :: 0 <= j < |v.fields| ==>
               FieldFits(g, g[m], g[m].fields[j]) && FieldPtrs(g, g[m].fields[j], v.fields[j]) == Owned(v.fields[j])
    ensures ScanFrom(g, m, v, i) == OwnedIn(v, v.fields, i)
    decreases |v.fields| - i
  {
    hide FieldFits, FieldPtrs, Owned;
    if i < |v.fields| {
      ScanIsOwned(g, m, v, i + 1);
      ScanStep(g, m, v, i);
    }
  }

  lemma {:induction false} FieldWalkIsOwned(g: Schema, f: Field, v: FieldValue)
    requires Closed(g) && TypedField(g, f, v) && (HasSubmap(f) ==> f.submap.id < |g| && Fresh(g, f.submap).valid)
    ensures FieldPtrs(g, f, v) == Owned(v)
    decreases v, 3
  {
    hide Analyze, Typed, MapPtrs, ElemPtrs, OwnedIn;
    if f.kind == Object {
      var m := TypedLink(g, f.submap, v);
      if Analyze(g, m, {}).mayAllocate {
        WalkIsOwned(g, m, v);
      } else {
        MayNotAllocateOwnsNothing(g, m, v);
      }
    } else if f.kind == ObjectArray {
      ElemsAreOwned(g, f, v);
    }
  }

  lemma {:induction false} ElemsAreOwned(g: Schema, f: Field, v: FieldValue)
    requires Closed(g) && f.kind == ObjectArray && TypedField(g, f, v)
    requires HasSubmap(f) ==> f.submap.id < |g| && Fresh(g, f.submap).valid
    ensures FieldPtrs(g, f, v) == Owned(v)
    decreases v, 1
  {
    hide Analyze, Typed, MapPtrs, Owned;
    var first := if v.ownsObjects then [v.objects] else [];
    assert Owned(v) == first + OwnedIn(v, v.elems, 0) by { OwnedOfObjects(v); }
    if v.elems == [] {
    } else if !v.ownsObjects && !Fresh(g, f.submap).mayAllocate {
      forall k | 0 <= k < |v.elems| ensures Owned(v.elems[k]) == [] {
        MayNotAllocateOwnsNothing(g, TypedLink(g, f.submap, v.elems[k]), v.elems[k]);
      }
      OwnedNothing(v, v.elems, 0);
    } else {
      forall k | 0 <= k < |v.elems| ensures MapPtrs(g, f.submap, v.elems[k]) == Owned(v.elems[k]) {
        WalkIsOwned(g, TypedLink(g, f.submap, v.elems[k]), v.elems[k]);
      }
      ElemWalkIsOwned(g, f.submap, v, 0);
    }
  }

  lemma {:induction false} ElemWalkIsOwned(g: Schema, link: Link, v: FieldValue, k: nat)
    requires Closed(g) && (link.MapLink? ==> link.id < |g|) && v.Objects?
    requires forall i :: 0 <= i < |v.elems| ==> MapPtrs(g, link, v.elems[i]) == Owned(v.elems[i])
    ensures ElemPtrs(g, link, v, k) == OwnedIn(v, v.elems, k)
    decreases |v.elems| - k
  {
    hide MapPtrs, Owned;
    if k < |v.elems| {
      ElemWalkIsOwned(g, link, v, k + 1);
    }
  }

  lemma TypedLinkOk(g: Schema, f: Field, v: FieldValue)
    requires Closed(g) && TypedField(g, f, v)
    ensures LinkOk(g, f)
  {
  }

  // ----- What the walk leaves behind -----

  /** The blocks with those that are pointed to counted for their sizes. */
  ghost function CountAll(blocks: seq<Block>, ps: seq<Ptr>): (r: seq<Block>)
    ensures |r| == |blocks|
  {
    seq(|blocks|, i requires 0 <= i < |blocks| =>
      if At(i) in ps then Block(blocks[i].freed, blocks[i].size, Mine, blocks[i].size) else blocks[i])
  }

  ghost predicate InRange(blocks: seq<Block>, ps: seq<Ptr>) {
    forall p :: p in ps && p.At? ==> p.id < |blocks|
  }

  /** Some beginning of the pointers would exceed the limit. */
  ghost predicate OverBudget(max: nat, blocks: seq<Block>, ps: seq<Ptr>) {
    exists k :: 0 <= k <= |ps| && max < Total(CountAll(blocks, ps[..k]))
  }

  lemma CountNone(blocks: seq<Block>)
    ensures CountAll(blocks, []) == blocks
  {
  }

  lemma CountMore(blocks: seq<Block>, p: Ptr, ps: seq<Ptr>)
    ensures CountAll(CountAll(blocks, [p]), ps) == CountAll(blocks, [p] + ps)
  {
    forall i | 0 <= i < |blocks| ensures CountAll(CountAll(blocks, [p]), ps)[i] == CountAll(blocks, [p] + ps)[i] {
    }
  }

  lemma {:induction false} CountIsUpdate(blocks: seq<Block>, i: nat)
    requires i < |blocks|
    ensures Total(CountAll(blocks, [At(i)])) == Total(blocks) - Counted(blocks[i]) + blocks[i].size
    ensures CountAll(blocks, [At(i)]) == blocks[i := blocks[i].(tag := Mine, counted := blocks[i].size)]
    ensures Counted(blocks[i]) <= Total(blocks)
  {
    hide Total;
    TotalUpdate(blocks, i, Block(blocks[i].freed, blocks[i].size, Mine, blocks[i].size));
    assert CountAll(blocks, [At(i)]) == blocks[i := blocks[i].(tag := Mine, counted := blocks[i].size)];
  }

  /** One pointer: it is counted, or it does not fit. */
  lemma AdoptOneMeans(max: nat, s: Book, p: Ptr)
    requires max != 0 && !s.failed && s.live == Total(s.blocks) <= max && InRange(s.blocks, [p])
    ensures var t := AdoptOne(max, s, p);
            && (t.failed <==> max < Total(CountAll(s.blocks, [p])))
            && (!t.failed ==> t.blocks == CountAll(s.blocks, [p]) && t.live == Total(t.blocks) <= max)
  {
    hide Total;
    if p.At? {
      assert p in [p];
      CountIsUpdate(s.blocks, p.id);
    } else {
      assert CountAll(s.blocks, [p]) == s.blocks;
    }
  }

  /** With a limit set, the walk fails exactly when some beginning of the pointers,
      counted for their sizes, exceeds it; otherwise each of them is counted so and
      no other block is changed. */
  lemma {:induction false} AdoptsExactly(max: nat, s: Book, ps: seq<Ptr>)
    requires max != 0 && !s.failed && s.live == Total(s.blocks) <= max && InRange(s.blocks, ps)
    ensures var t := AdoptAll(max, s, ps);
            && (t.failed <==> OverBudget(max, s.blocks, ps))
            && (!t.failed ==> t.blocks == CountAll(s.blocks, ps) && t.live == Total(t.blocks))
    decreases |ps|
  {
    hide Total, AdoptOne, CountAll, Adopted;
    CountNone(s.blocks);
    if ps == [] {
      assert ps[..0] == [];
    } else {
      var p, rest, t := ps[0], ps[1..], AdoptOne(max, s, ps[0]);
      assert ps == [p] + rest;
      AdoptOneMeans(max, s, p);
      assert ps[..1] == [p];
      if t.failed {
        FailedStays(max, t, rest);
      } else {
        CountMore(s.blocks, p, rest);
        AdoptsExactly(max, t, rest);
        OverBudgetStep(max, s.blocks, p, rest);
      }
    }
  }

  lemma OverBudgetStep(max: nat, blocks: seq<Block>, p: Ptr, rest: seq<Ptr>)
    requires Total(blocks) <= max
    ensures OverBudget(max, blocks, [p] + rest) <==> OverBudget(max, CountAll(blocks, [p]), rest)
  {
    hide Total, CountAll;
    var ps, next := [p] + rest, CountAll(blocks, [p]);
    CountNone(blocks);
    assert ps[..0] == [];
    if k :| 0 <= k <= |ps| && max < Total(CountAll(blocks, ps[..k])) {
      assert ps[..k] == [p] + rest[..k - 1];
      CountMore(blocks, p, rest[..k - 1]);
      assert max < Total(CountAll(next, rest[..k - 1]));
    }
    if k :| 0 <= k <= |rest| && max < Total(CountAll(next, rest[..k])) {
      CountMore(blocks, p, rest[..k]);
      assert ps[..k + 1] == [p] + rest[..k];
    }
  }

  class Adopter {
    const g: Schema
    const ledger: Ledger
    const cache: MapCache
    var failed: bool

    ghost predicate Ready()
      reads this, ledger, cache, cache.slots
      ensures Ready() ==> Closed(g)
    {
      ledger.Valid() && cache.Valid() && Closed(g) && forall m :: 0 <= m < |g| ==> Unchanged(cache.seen, g, m)
    }

    ghost function State(): Book
      reads this, ledger
    {
      Book(ledger.live, ledger.blocks, failed)
    }

    ghost predicate UsableAll(ps: seq<Ptr>)
      reads ledger
    {
      forall i :: 0 <= i < |ps| ==> ledger.Usable(ps[i])
    }

    constructor (g: Schema, ledger: Ledger, cache: MapCache)
      requires ledger.Valid() && cache.Valid() && Closed(g) && forall m :: 0 <= m < |g| ==> Unchanged(cache.seen, g, m)
      ensures Ready() && !failed && this.g == g && this.ledger == ledger && this.cache == cache
    {
      this.g, this.ledger, this.cache, failed := g, ledger, cache, false;
    }

    method AdoptPointer(p: Ptr) returns (ok: bool)
      requires Ready() && !failed && ledger.Usable(p)
      modifies this`failed, ledger
      ensures Ready() && ok == !failed && forall q :: old(ledger.Usable(q)) ==> ledger.Usable(q)
      ensures State() == AdoptOne(ledger.maxBytes, old(State()), p)
    {
      hide Unchanged, Closed, Ledger.Valid, MapCache.Valid;
      if p.Null? || ledger.maxBytes == 0 {
        return true;
      }
      ok := ledger.TryAdopt(p);
      if !ok {
        failed := true;
      }
    }

    /** Pointers one after the other. */
    method AdoptPointers(ps: seq<Ptr>) returns (ok: bool)
      requires Ready() && !failed && UsableAll(ps)
      modifies this`failed, ledger
      ensures Ready() && ok == !failed && forall q :: old(ledger.Usable(q)) ==> ledger.Usable(q)
      ensures State() == AdoptAll(ledger.maxBytes, old(State()), ps)
    {
      hide Ready, AdoptOne, AdoptAll;
      var i := 0;
      assert ps[0..] == ps;
      while i < |ps|
        invariant 0 <= i <= |ps| && Ready() && !failed && forall q :: old(ledger.Usable(q)) ==> ledger.Usable(q)
        invariant AdoptAll(ledger.maxBytes, old(State()), ps) == AdoptAll(ledger.maxBytes, State(), ps[i..])
      {
        AdoptStep(ledger.maxBytes, State(), ps, i);
        ok := AdoptPointer(ps[i]);
        if !ok {
          FailedStays(ledger.maxBytes, State(), ps[i + 1..]);
          return;
        }
        i := i + 1;
      }
      AdoptNone(ledger.maxBytes, State(), ps);
      ok := true;
    }

    /** What may be adopted under a field: its attempts have been made in order. */
    method AdoptValue(f: Field, v: FieldValue) returns (ok: bool)
      requires Ready() && ShapedField(g, f, v) && UsableAll(FieldPtrs(g, f, v))
      requires HasSubmap(f) ==> Fresh(g, f.submap).valid
      modifies this`failed, ledger, cache.slots
      ensures Ready() && ok == !failed && forall q :: old(ledger.Usable(q)) ==> ledger.Usable(q)
      ensures State() == AdoptAll(ledger.maxBytes, old(State()), FieldPtrs(g, f, v))
      ensures TypedField(g, f, v) ==> State() == AdoptAll(ledger.maxBytes, old(State()), Owned(v))
      decreases v, 7
    {
      hide Ready, AdoptOne, Analyze, MapPtrs, ElemPtrs, AdoptAll, Shaped, TypedField, Owned;
      if TypedField(g, f, v) {
        OwnedField(f, v);
      }
      if failed || ledger.maxBytes == 0 {
        FailedStays(ledger.maxBytes, State().(failed := true), FieldPtrs(g, f, v));
        NoLimitNothing(State(), FieldPtrs(g, f, v));
        return !failed;
      }
      match f.kind
      case StringField =>
        if f.storage == Dynamic {
          ok := AdoptPointers([v.p]);
        } else {
          ok := AdoptPointers([]);
        }
      case StringStream | Base64Stream | StringSource | Base64Source =>
        ok := AdoptPointers([v.p]);
      case JsonField =>
        ok := AdoptPointers([v.json, v.path]);
      case Object =>
        ok := AdoptObject(f, v);
      case StringArray =>
        ok := AdoptPointers((if v.owns then [v.items] else []) + v.strings);
      case I64Array | U64Array | F64Array | BoolArray =>
        ok := AdoptPointers(if v.owns then [v.items] else []);
      case ObjectArray =>
        ok := AdoptObjects(f, v);
      case I64 | U64 | F64 | Bool | StringArrayStream | MappedArrayStream | OtherKind =>
        ok := AdoptPointers([]);
    }

    method AdoptObject(f: Field, v: FieldValue) returns (ok: bool)
      requires Ready() && !failed && f.kind == Object && ShapedField(g, f, v) && UsableAll(FieldPtrs(g, f, v))
      requires HasSubmap(f) ==> Fresh(g, f.submap).valid
      modifies this`failed, ledger, cache.slots
      ensures Ready() && ok == !failed && forall q :: old(ledger.Usable(q)) ==> ledger.Usable(q)
      ensures State() == AdoptAll(ledger.maxBytes, old(State()), FieldPtrs(g, f, v))
      decreases v, 6
    {
      hide AdoptOne, Analyze, MapPtrs, AdoptAll, Shaped, Unchanged;
      var may := cache.MayAllocate(g, f.submap);
      if !may {
        AdoptNone(ledger.maxBytes, State(), []);
        return true;
      }
      AdoptMap(f.submap, v);
      ok := !failed;
    }

    method AdoptObjects(f: Field, v: FieldValue) returns (ok: bool)
      requires Ready() && !failed && f.kind == ObjectArray && ShapedField(g, f, v) && UsableAll(FieldPtrs(g, f, v))
      requires HasSubmap(f) ==> Fresh(g, f.submap).valid
      modifies this`failed, ledger, cache.slots
      ensures Ready() && ok == !failed && forall q :: old(ledger.Usable(q)) ==> ledger.Usable(q)
      ensures State() == AdoptAll(ledger.maxBytes, old(State()), FieldPtrs(g, f, v))
      decreases v, 6
    {
      hide AdoptOne, Analyze, MapPtrs, AdoptAll, Shaped, Unchanged, ElemPtrs;
      ghost var first, max := if v.ownsObjects then [v.objects] else [], ledger.maxBytes;
      ghost var rest := if f.submap.NoMap? || v.objects.Null? || (!v.ownsObjects && !Fresh(g, f.submap).mayAllocate) then []
                        else ElemPtrs(g, f.submap, v, 0);
      assert FieldPtrs(g, f, v) == first + rest;
      UsableParts(first, rest);
      AdoptConcat(max, State(), first, rest);
      ok := AdoptPointers(if v.ownsObjects then [v.objects] else []);
      if !ok {
        FailedStays(max, State(), rest);
        return;
      }
      AdoptNone(max, State(), []);
      if f.submap.NoMap? || v.objects.Null? {
        return true;
      }
      if !v.ownsObjects {
        var may := cache.MayAllocate(g, f.submap);
        if !may {
          return true;
        }
      }
      ok := AdoptElems(f.submap, v);
    }

    lemma UsableParts(a: seq<Ptr>, b: seq<Ptr>)
      requires UsableAll(a + b)
      ensures UsableAll(a) && UsableAll(b)
    {
      forall i | 0 <= i < |a| ensures ledger.Usable(a[i]) {
        assert (a + b)[i] == a[i];
      }
      forall i | 0 <= i < |b| ensures ledger.Usable(b[i]) {
        assert (a + b)[|a| + i] == b[i];
      }
    }

    method AdoptElems(link: Link, v: FieldValue) returns (ok: bool)
      requires Ready() && !failed && v.Objects? && link.MapLink? && link.id < |g| && Fresh(g, link).valid
      requires (forall k :: 0 <= k < |v.elems| ==> Shaped(g, link, v.elems[k])) && UsableAll(ElemPtrs(g, link, v, 0))
      modifies this`failed, ledger, cache.slots
      ensures Ready() && ok == !failed && forall q :: old(ledger.Usable(q)) ==> ledger.Usable(q)
      ensures State() == AdoptAll(ledger.maxBytes, old(State()), ElemPtrs(g, link, v, 0))
      decreases v, 5
    {
      hide AdoptOne, Analyze, MapPtrs, AdoptAll, Shaped, Unchanged, ElemPtrs, Ready;
      var k := 0;
      while k < |v.elems|
        invariant 0 <= k <= |v.elems| && Ready() && !failed && forall q :: old(ledger.Usable(q)) ==> ledger.Usable(q)
        invariant UsableAll(ElemPtrs(g, link, v, k))
        invariant AdoptAll(ledger.maxBytes, old(State()), ElemPtrs(g, link, v, 0)) ==
                  AdoptAll(ledger.maxBytes, State(), ElemPtrs(g, link, v, k))
      {
        ghost var here, rest := MapPtrs(g, link, v.elems[k]), ElemPtrs(g, link, v, k + 1);
        ElemStep(g, link, v, k);
        UsableParts(here, rest);
        AdoptConcat(ledger.maxBytes, State(), here, rest);
        AdoptMap(link, v.elems[k]);
        if failed {
          FailedStays(ledger.maxBytes, State(), rest);
          return false;
        }
        k := k + 1;
      }
      ElemEnds(g, link, v);
      AdoptNone(ledger.maxBytes, State(), []);
      ok := true;
    }

    /** Before a walk: what it attempts is what the value owns, and where that leads. */
    lemma OwnedIsAttempted(link: Link, v: FieldValue)
      requires Ready() && link.MapLink? && link.id < |g| && Fresh(g, link).valid && Typed(g, link, v)
      requires UsableAll(MapPtrs(g, link, v))
      ensures MapPtrs(g, link, v) == Owned(v)
      ensures var t := AdoptAll(ledger.maxBytes, State(), Owned(v));
              ledger.maxBytes != 0 && !failed ==>
                && (t.failed <==> OverBudget(ledger.maxBytes, ledger.blocks, Owned(v)))
                && (!t.failed ==> t.blocks == CountAll(ledger.blocks, Owned(v)))
    {
      hide Analyze, AdoptAll, MapPtrs, Owned, Typed, Unchanged, MapCache.Valid, Total, CountAll, OverBudget;
      WalkIsOwned(g, link.id, v);
      if ledger.maxBytes != 0 && !failed {
        assert InRange(ledger.blocks, Owned(v)) by { UsableInRange(Owned(v)); }
        AdoptsExactly(ledger.maxBytes, State(), Owned(v));
      }
    }

    lemma OwnedField(f: Field, v: FieldValue)
      requires Ready() && TypedField(g, f, v) && (HasSubmap(f) ==> Fresh(g, f.submap).valid)
      ensures FieldPtrs(g, f, v) == Owned(v)
    {
      hide Analyze, TypedField, Owned, FieldPtrs, Unchanged, MapCache.Valid, Ledger.Valid;
      if HasSubmap(f) {
        assert LinkOk(g, f) by { TypedLinkOk(g, f, v); }
      }
      FieldWalkIsOwned(g, f, v);
    }

    lemma UsableInRange(ps: seq<Ptr>)
      requires UsableAll(ps)
      ensures InRange(ledger.blocks, ps)
    {
    }

    /** The walk with the map's own mask. */
    method AdoptMap(link: Link, v: FieldValue)
      requires Ready() && (link.MapLink? ==> link.id < |g| && Fresh(g, link).valid)
      requires Shaped(g, link, v) && UsableAll(MapPtrs(g, link, v))
      modifies this`failed, ledger, cache.slots
      ensures Ready() && forall q :: old(ledger.Usable(q)) ==> ledger.Usable(q)
      ensures State() == AdoptAll(ledger.maxBytes, old(State()), MapPtrs(g, link, v))
      ensures Typed(g, link, v) ==> State() == AdoptAll(ledger.maxBytes, old(State()), Owned(v))
      decreases v, 4
    {
      hide AdoptOne, Analyze, MapPtrs, AdoptAll, Shaped, Unchanged, Typed, Owned, OverBudget, CountAll;
      var mask := cache.AdoptMask(g, link);
      AdoptMapWithMask(link, v, mask);
    }

    /** The walk over the fields of a mask, or over all fields when it is full,
        attempts what a scan of every field attempts, in the same order. */
    method AdoptMapWithMask(link: Link, v: FieldValue, adoptMask: Mask)
      requires Ready() && (link.MapLink? ==> link.id < |g| && Fresh(g, link).valid) && adoptMask == Fresh(g, link).adoptMask
      requires Shaped(g, link, v) && UsableAll(MapPtrs(g, link, v))
      modifies this`failed, ledger, cache.slots
      ensures Ready() && forall q :: old(ledger.Usable(q)) ==> ledger.Usable(q)
      ensures State() == AdoptAll(ledger.maxBytes, old(State()), MapPtrs(g, link, v))
      ensures Typed(g, link, v) ==> State() == AdoptAll(ledger.maxBytes, old(State()), Owned(v))
      ensures Typed(g, link, v) && ledger.maxBytes != 0 && !old(failed) ==>
                && (failed <==> OverBudget(ledger.maxBytes, old(ledger.blocks), Owned(v)))
                && (!failed ==> ledger.blocks == CountAll(old(ledger.blocks), Owned(v)))
      decreases v, 3
    {
      hide AdoptOne, Analyze, AdoptAll, ShapedField, Ready, ScanFrom;
      if Typed(g, link, v) {
        OwnedIsAttempted(link, v);
      }
      if link.NoMap? || failed || ledger.maxBytes == 0 {
        FailedStays(ledger.maxBytes, State().(failed := true), MapPtrs(g, link, v));
        NoLimitNothing(State(), MapPtrs(g, link, v));
        if link.NoMap? {
          AdoptNone(ledger.maxBytes, State(), []);
        }
        return;
      }
      if adoptMask != ALL_BITS {
        AdoptMasked(link.id, v, adoptMask);
      } else {
        AdoptScan(link.id, v);
      }
    }

    method AdoptScan(m: nat, v: FieldValue)
      requires Ready() && !failed && m < |g| && Fresh(g, MapLink(m)).valid
      requires Shaped(g, MapLink(m), v) && UsableAll(ScanFrom(g, m, v, 0))
      modifies this`failed, ledger, cache.slots
      ensures Ready() && forall q :: old(ledger.Usable(q)) ==> ledger.Usable(q)
      ensures State() == AdoptAll(ledger.maxBytes, old(State()), ScanFrom(g, m, v, 0))
      decreases v, 2
    {
      hide AdoptOne, Analyze, AdoptAll, ShapedField, Ready, ScanFrom, FieldPtrs, FieldFits;
      var i := 0;
      while i < |g[m].fields|
        invariant 0 <= i <= |g[m].fields| && Ready() && !failed && forall q :: old(ledger.Usable(q)) ==> ledger.Usable(q)
        invariant UsableAll(ScanFrom(g, m, v, i))
        invariant AdoptAll(ledger.maxBytes, old(State()), ScanFrom(g, m, v, 0)) ==
                  AdoptAll(ledger.maxBytes, State(), ScanFrom(g, m, v, i))
      {
        ValidField(g, m, i);
        if FieldFits(g, g[m], g[m].fields[i]) {
          var ok := AdoptNext(m, v, i);
          if !ok {
            return;
          }
        }
        i := i + 1;
      }
      ScanEnds(g, m, v);
      AdoptNone(ledger.maxBytes, State(), []);
    }

    /** Field `i`, the next to be examined. */
    method AdoptNext(m: nat, v: FieldValue, i: nat) returns (ok: bool)
      requires Ready() && !failed && m < |g| && i < |g[m].fields| && Fresh(g, MapLink(m)).valid
      requires Shaped(g, MapLink(m), v) && UsableAll(ScanFrom(g, m, v, i))
      modifies this`failed, ledger, cache.slots
      ensures Ready() && ok == !failed && forall q :: old(ledger.Usable(q)) ==> ledger.Usable(q)
      ensures ok ==> AdoptAll(ledger.maxBytes, old(State()), ScanFrom(g, m, v, i)) ==
                     AdoptAll(ledger.maxBytes, State(), ScanFrom(g, m, v, i + 1))
                     && UsableAll(ScanFrom(g, m, v, i + 1))
      ensures !ok ==> State() == AdoptAll(ledger.maxBytes, old(State()), ScanFrom(g, m, v, i))
      decreases v, 1
    {
      hide AdoptOne, Analyze, AdoptAll, Ready, ScanFrom, FieldPtrs, FieldFits, ShapedField;
      ValidField(g, m, i);
      ScanStep(g, m, v, i);
      ghost var here, rest := FieldPtrs(g, g[m].fields[i], v.fields[i]), ScanFrom(g, m, v, i + 1);
      UsableParts(here, rest);
      AdoptConcat(ledger.maxBytes, State(), here, rest);
      ok := AdoptValue(g[m].fields[i], v.fields[i]);
      if !ok {
        FailedStays(ledger.maxBytes, State(), rest);
      }
    }

    method AdoptMasked(m: nat, v: FieldValue, adoptMask: Mask)
      requires Ready() && !failed && m < |g| && Fresh(g, MapLink(m)).valid
      requires adoptMask == Fresh(g, MapLink(m)).adoptMask != ALL_BITS
      requires Shaped(g, MapLink(m), v) && UsableAll(ScanFrom(g, m, v, 0))
      modifies this`failed, ledger, cache.slots
      ensures Ready() && forall q :: old(ledger.Usable(q)) ==> ledger.Usable(q)
      ensures State() == AdoptAll(ledger.maxBytes, old(State()), ScanFrom(g, m, v, 0))
      decreases v, 2
    {
      hide AdoptOne, Analyze, AdoptAll, ShapedField, Ready, ScanFrom, FieldPtrs, FieldFits;
      MaskInRange(g, m);
      var mask := adoptMask;
      ghost var i := 0;
      while mask != {}
        invariant 0 <= i <= |g[m].fields| && Ready() && !failed && forall q :: old(ledger.Usable(q)) ==> ledger.Usable(q)
        invariant forall b: nat :: b in mask <==> b in adoptMask && i <= b
        invariant UsableAll(ScanFrom(g, m, v, i))
        invariant AdoptAll(ledger.maxBytes, old(State()), ScanFrom(g, m, v, 0)) ==
                  AdoptAll(ledger.maxBytes, State(), ScanFrom(g, m, v, i))
        decreases mask
      {
        var j := LowestBit(mask);
        mask := mask - {j};
        SkipUnmasked(g, m, v, i, j);
        var ok := AdoptNext(m, v, j);
        if !ok {
          return;
        }
        i := j + 1;
      }
      SkipUnmasked(g, m, v, i, |g[m].fields|);
      ScanEnds(g, m, v);
      AdoptNone(ledger.maxBytes, State(), []);
    }
  }

  /** The index of the lowest set bit. */
  method LowestBit(mask: Mask) returns (i: nat)
    requires mask != {}
    ensures i in mask && forall j :: j in mask ==> i <= j
  {
    ghost var bound :| bound in mask;
    i := 0;
    while i !in mask
      invariant i <= bound && forall j :: j in mask ==> i <= j
      decreases bound - i
    {
      i := i + 1;
    }
  }

  lemma MaskInRange(g: Schema, m: nat)
    requires Closed(g) && m < |g| && Analyze(g, m, {}).adoptMask != ALL_BITS
    ensures |g[m].fields| <= MASK_BITS && forall b :: b in Analyze(g, m, {}).adoptMask ==> b < |g[m].fields|
  {
    hide FieldAdopts, FieldValid, FieldAllocates;
  }

  lemma SkipUnmasked(g: Schema, m: nat, v: FieldValue, i: nat, j: nat)
    requires Closed(g) && m < |g| && v.Struct? && Analyze(g, m, {}).valid && i <= j <= |g[m].fields| <= MASK_BITS
    requires forall b :: b in Analyze(g, m, {}).adoptMask && i <= b ==> j <= b
    ensures ScanFrom(g, m, v, i) == ScanFrom(g, m, v, j)
  {
    hide Analyze, FieldPtrs, ScanFrom;
    forall k | i <= k < j && k < |v.fields| ensures FieldPtrs(g, g[m].fields[k], v.fields[k]) == [] {
      NothingOutsideMask(g, m, k, v.fields[k]);
    }
    SkipFields(g, m, v, i, j);
  }

  lemma ElemStep(g: Schema, link: Link, v: FieldValue, k: nat)
    requires Closed(g) && (link.MapLink? ==> link.id < |g|) && v.Objects? && k < |v.elems|
    ensures ElemPtrs(g, link, v, k) == MapPtrs(g, link, v.elems[k]) + ElemPtrs(g, link, v, k + 1)
  {
    hide MapPtrs;
  }

  lemma ElemEnds(g: Schema, link: Link, v: FieldValue)
    requires Closed(g) && (link.MapLink? ==> link.id < |g|) && v.Objects?
    ensures ElemPtrs(g, link, v, |v.elems|) == []
  {
  }

  lemma AdoptStep(max: nat, s: Book, ps: seq<Ptr>, i: nat)
    requires !s.failed && i < |ps|
    ensures AdoptAll(max, s, ps[i..]) == AdoptAll(max, AdoptOne(max, s, ps[i]), ps[i + 1..])
  {
    assert ps[i..][1..] == ps[i + 1..];
  }

  lemma AdoptNone(max: nat, s: Book, ps: seq<Ptr>)
    ensures AdoptAll(max, s, ps[|ps|..]) == s
  {
  }
}
