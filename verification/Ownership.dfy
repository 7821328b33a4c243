/** What an existing value owns, by the value alone, and what the analysis of its map
    says of it. */
module Ownerships {
  import opened Bytes
  import opened Schemas
  import opened SchemaProofs
  import opened Ledgers

  /** What lies at a field of an existing value. `Pointer` is a field that holds
      one owned pointer, `Items` a string or scalar array, `Objects` an array of
      mapped structures. */
  datatype FieldValue =
    | Plain
    | Pointer(p: Ptr)
    | Json(json: Ptr, path: Ptr)
    | Struct(fields: seq<FieldValue>)
    | Items(owns: bool, items: Ptr, strings: seq<Ptr>)
    | Objects(ownsObjects: bool, objects: Ptr, elems: seq<FieldValue>)

  /** The pointers a value owns, by the value alone and in order: every pointer it
      holds, both parts of a JSON value, the items of an array that owns them, all
      strings, and all that its structures and elements own. */
  ghost function Owned(v: FieldValue): seq<Ptr>
    decreases v, 1
  {
    match v
    case Plain => []
    case Pointer(p) => [p]
    case Json(json, path) => [json, path]
    case Struct(fields) => OwnedIn(v, fields, 0)
    case Items(owns, items, strings) => (if owns then [items] else []) + strings
    case Objects(owns, objects, elems) => (if owns then [objects] else []) + OwnedIn(v, elems, 0)
  }

  ghost function OwnedIn(v: FieldValue, parts: seq<FieldValue>, i: nat): seq<Ptr>
    requires (v.Struct? && parts == v.fields) || (v.Objects? && parts == v.elems)
    decreases v, 0, |parts| - i
  {
    if |parts| <= i then [] else Owned(parts[i]) + OwnedIn(v, parts, i + 1)
  }

  /** A value as a map types it: it holds pointers only where a field's kind has
      them, fixed arrays own no items, and elements stand in an array that is there. */
  ghost predicate Typed(g: Schema, link: Link, v: FieldValue)
    requires Closed(g) && (link.MapLink? ==> link.id < |g|)
    decreases v, 2
  {
    && link.MapLink? && v.Struct? && |v.fields| == |g[link.id].fields|
    && forall i :: 0 <= i < |v.fields| ==> TypedField(g, g[link.id].fields[i], v.fields[i])
  }

  ghost predicate TypedField(g: Schema, f: Field, v: FieldValue)
    requires Closed(g)
    decreases v, 3
  {
    && LinkOk(g, f)
    && match f.kind
       case StringField => if f.storage == Dynamic then v.Pointer? else v.Plain?
       case StringStream | Base64Stream | StringSource | Base64Source => v.Pointer?
       case JsonField => v.Json?
       case Object => Typed(g, f.submap, v)
       case StringArray => v.Items?
       case I64Array | U64Array | F64Array | BoolArray => v.Items? && v.strings == [] && (f.storage == Fixed ==> !v.owns)
       case ObjectArray =>
         && v.Objects? && (f.storage == Fixed ==> !v.ownsObjects) && (f.submap.NoMap? || v.objects.Null? ==> v.elems == [])
         && forall k :: 0 <= k < |v.elems| ==> Typed(g, f.submap, v.elems[k])
       case I64 | U64 | F64 | Bool | StringArrayStream | MappedArrayStream | OtherKind => v.Plain?
  }

  predicate FieldFits(g: Schema, m: MapDef, f: Field) {
    StorageSize(g, f) != 0 && f.offset <= m.structSize && StorageSize(g, f) <= m.structSize - f.offset
  }

  ghost predicate LinkOk(g: Schema, f: Field) {
    f.submap.MapLink? ==> f.submap.id < |g|
  }

  /** Every field of a valid map fits, and its submap is valid. */
  lemma ValidField(g: Schema, m: nat, j: nat)
    requires Closed(g) && m < |g| && Analyze(g, m, {}).valid && j < |g[m].fields|
    ensures var f := g[m].fields[j];
            FieldFits(g, g[m], f) && (HasSubmap(f) ==> f.submap.id < |g| && Fresh(g, f.submap).valid)
  {
    hide Analyze, Edge;
    var f := g[m].fields[j];
    ValidLocally(g, m, {});
    assert FieldOk(g, g[m], f);
    if HasSubmap(f) {
      FieldEdge(g, m, j);
      assert Walk(g, [m]);
      ValidBelow(g, [m], f.submap.id);
    }
  }

  /** What the analysis of a valid map that may not allocate says of a field. */
  lemma NoFieldAllocates(g: Schema, m: nat, j: nat)
    requires Closed(g) && m < |g| && Analyze(g, m, {}).valid && !Analyze(g, m, {}).mayAllocate && j < |g[m].fields|
    ensures var f := g[m].fields[j];
            !OwnsMemory(f) && (HasSubmap(f) ==> f.submap.id < |g| && Fresh(g, f.submap).valid && !Fresh(g, f.submap).mayAllocate)
  {
    hide FieldValid, FieldAdopts, Sub, FieldOk, Edge;
    var f, t := g[m].fields[j], {} + {m};
    NothingBeforeEnd(g, m, j);
    if HasSubmap(f) {
      ValidField(g, m, j);
      FieldEdge(g, m, j);
      assert Walk(g, [m]) && Elements([m]) == {m} == t;
      AncestorsIrrelevant(g, [m], f.submap.id);
      SubIs(g, f, t);
    }
  }

  lemma NothingBeforeEnd(g: Schema, m: nat, j: nat)
    requires Closed(g) && m < |g| && Analyze(g, m, {}).valid && !Analyze(g, m, {}).mayAllocate && j < |g[m].fields|
    ensures !FieldAllocates(g, m, j, {} + {m})
  {
    hide FieldValid, FieldAdopts, FieldAllocates;
  }

  lemma OwnedNothing(v: FieldValue, parts: seq<FieldValue>, i: nat)
    requires (v.Struct? && parts == v.fields) || (v.Objects? && parts == v.elems)
    requires forall k :: i <= k < |parts| ==> Owned(parts[k]) == []
    ensures OwnedIn(v, parts, i) == []
    decreases |parts| - i
  {
    hide Owned;
    if i < |parts| {
      OwnedNothing(v, parts, i + 1);
    }
  }

  /** A value of a valid map that may not allocate owns nothing, however deep. */
  lemma {:induction false} MayNotAllocateOwnsNothing(g: Schema, m: nat, v: FieldValue)
    requires Closed(g) && m < |g| && Analyze(g, m, {}).valid && !Analyze(g, m, {}).mayAllocate && Typed(g, MapLink(m), v)
    ensures Owned(v) == []
    decreases v, 1
  {
    hide Analyze, TypedField, OwnedIn, OwnsMemory;
    forall j | 0 <= j < |v.fields| ensures Owned(v.fields[j]) == [] {
      assert TypedField(g, g[m].fields[j], v.fields[j]);
      NoFieldAllocates(g, m, j);
      SilentFieldOwnsNothing(g, g[m].fields[j], v.fields[j]);
    }
    hide Owned;
    OwnedNothing(v, v.fields, 0);
    assert Owned(v) == OwnedIn(v, v.fields, 0) by { OwnedOfStruct(v); }
  }

  lemma OwnedOfStruct(v: FieldValue)
    requires v.Struct?
    ensures Owned(v) == OwnedIn(v, v.fields, 0)
  {
  }

  lemma OwnedOfObjects(v: FieldValue)
    requires v.Objects?
    ensures Owned(v) == (if v.ownsObjects then [v.objects] else []) + OwnedIn(v, v.elems, 0)
  {
  }

  lemma {:induction false} SilentFieldOwnsNothing(g: Schema, f: Field, v: FieldValue)
    requires Closed(g) && TypedField(g, f, v) && !OwnsMemory(f)
    requires HasSubmap(f) ==> f.submap.id < |g| && Fresh(g, f.submap).valid && !Fresh(g, f.submap).mayAllocate
    ensures Owned(v) == []
    decreases v, 2
  {
    hide Analyze, Typed;
    if f.kind == Object {
      MayNotAllocateOwnsNothing(g, TypedLink(g, f.submap, v), v);
    } else if f.kind == ObjectArray {
      forall k | 0 <= k < |v.elems| ensures Owned(v.elems[k]) == [] {
        MayNotAllocateOwnsNothing(g, TypedLink(g, f.submap, v.elems[k]), v.elems[k]);
      }
      OwnedNothing(v, v.elems, 0);
    }
  }

  /** A typed value has a map. */
  ghost function TypedLink(g: Schema, link: Link, v: FieldValue): (m: nat)
    requires Closed(g) && (link.MapLink? ==> link.id < |g|) && Typed(g, link, v)
    ensures m < |g| && link == MapLink(m)
  {
    link.id
  }

  // ----- When the answer is more than cautious -----

  ghost predicate OwnsBlock(v: FieldValue) {
    exists p :: p in Owned(v) && p.At?
  }

  /** Some value of the map owns a block. */
  ghost predicate CanOwn(g: Schema, m: nat)
    requires Closed(g) && m < |g|
  {
    exists v :: Typed(g, MapLink(m), v) && OwnsBlock(v)
  }

  ghost predicate Inhabited(g: Schema, m: nat)
    requires Closed(g) && m < |g|
  {
    exists v :: Typed(g, MapLink(m), v)
  }

  ghost predicate FieldInhabited(g: Schema, f: Field)
    requires Closed(g)
  {
    exists v :: TypedField(g, f, v)
  }

  ghost predicate FieldsInhabited(g: Schema, m: nat)
    requires Closed(g) && m < |g|
  {
    forall i :: 0 <= i < |g[m].fields| ==> FieldInhabited(g, g[m].fields[i])
  }

  ghost predicate FieldCanOwn(g: Schema, f: Field)
    requires Closed(g)
  {
    exists v :: TypedField(g, f, v) && OwnsBlock(v)
  }

  ghost predicate Embeds(g: Schema, m: nat, n: nat) {
    m < |g| && exists i :: 0 <= i < |g[m].fields| && EmbeddedIn(g[m].fields[i], n)
  }

  ghost predicate EmbeddedIn(f: Field, n: nat) {
    f.kind == Object && f.submap == MapLink(n)
  }

  /** From place `k` on, each structure of the walk lies inside the one before. */
  ghost predicate Embedding(g: Schema, w: seq<nat>, k: nat) {
    forall i :: k <= i < |w| - 1 ==> Embeds(g, w[i], w[i + 1])
  }

  /** No structure below the map lies inside itself. */
  ghost predicate Finite(g: Schema, m: nat) {
    forall w, k: nat :: WalkFrom(g, m, w) && k < |w| && Embedding(g, w, k) ==> Simple(w[k..])
  }

  ghost predicate ReachesOwner(g: Schema, m: nat) {
    exists w :: WalkFrom(g, m, w) && OwnsAt(g, w[|w| - 1])
  }

  ghost predicate ReachesCycle(g: Schema, m: nat) {
    exists w :: WalkFrom(g, m, w) && Repeats(w)
  }

  /** Some value of the field. */
  ghost function ValueOf(g: Schema, f: Field): (v: FieldValue)
    requires Closed(g) && FieldInhabited(g, f)
    ensures TypedField(g, f, v)
  {
    var v :| TypedField(g, f, v);
    v
  }

  lemma FieldHasValue(g: Schema, f: Field)
    requires Closed(g) && LinkOk(g, f)
    requires f.kind == Object ==> f.submap.MapLink? && Inhabited(g, f.submap.id)
    ensures FieldInhabited(g, f)
  {
    hide Typed;
    match f.kind
    case StringField => assert TypedField(g, f, if f.storage == Dynamic then Pointer(Null) else Plain);
    case StringStream | Base64Stream | StringSource | Base64Source => assert TypedField(g, f, Pointer(Null));
    case JsonField => assert TypedField(g, f, Json(Null, Null));
    case Object =>
      var v :| Typed(g, f.submap, v);
      assert TypedField(g, f, v);
    case StringArray | I64Array | U64Array | F64Array | BoolArray => assert TypedField(g, f, Items(false, Null, []));
    case ObjectArray => assert TypedField(g, f, Objects(false, Null, []));
    case _ => assert TypedField(g, f, Plain);
  }

  /** A value of every field, and the given one at place `j`. */
  lemma MapHasValue(g: Schema, m: nat, j: nat, x: FieldValue) returns (v: FieldValue)
    requires Closed(g) && m < |g| && FieldsInhabited(g, m)
    requires j < |g[m].fields| ==> TypedField(g, g[m].fields[j], x)
    ensures Typed(g, MapLink(m), v) && v.Struct? && |v.fields| == |g[m].fields| && (j < |v.fields| ==> v.fields[j] == x)
  {
    hide TypedField, FieldInhabited;
    v := Struct(seq(|g[m].fields|, i requires 0 <= i < |g[m].fields| => if i == j then x else ValueOf(g, g[m].fields[i])));
  }

  /** Every map reached by a walk has a value. */
  lemma {:induction false} ReachedInhabited(g: Schema, m: nat, w: seq<nat>, k: nat)
    requires Closed(g) && m < |g| && Analyze(g, m, {}).valid && Finite(g, m)
    requires WalkFrom(g, m, w) && k < |w| && Embedding(g, w, k)
    ensures w[|w| - 1] < |g| && Inhabited(g, w[|w| - 1])
    ensures FieldsInhabited(g, w[|w| - 1])
    decreases Ids(g) - Elements(w[k..])
  {
    hide Analyze, FieldOk, Typed, TypedField, FieldInhabited, Inhabited;
    var n := w[|w| - 1];
    WalkInSchema(g, w, |w| - 1);
    ValidMeans(g, m);
    forall j | 0 <= j < |g[n].fields| ensures FieldInhabited(g, g[n].fields[j]) {
      var f := g[n].fields[j];
      EmbeddedMap(g, n, j);
      if f.kind == Object {
        EmbeddedStep(g, m, w, k, j);
        ReachedInhabited(g, m, w + [f.submap.id], k);
      }
      FieldHasValue(g, f);
    }
    var v := MapHasValue(g, n, |g[n].fields|, Plain);
    assert Inhabited(g, n) by { InhabitedBy(g, n, v); }
  }

  lemma InhabitedBy(g: Schema, m: nat, v: FieldValue)
    requires Closed(g) && m < |g| && Typed(g, MapLink(m), v)
    ensures Inhabited(g, m)
  {
    hide Typed;
  }

  /** A field that is well placed has its structure. */
  lemma EmbeddedMap(g: Schema, n: nat, j: nat)
    requires Closed(g) && n < |g| && LocallyOk(g, n) && j < |g[n].fields|
    ensures var f := g[n].fields[j]; LinkOk(g, f) && (f.kind == Object ==> f.submap.MapLink? && f.submap.id < |g|)
  {
    assert FieldOk(g, g[n], g[n].fields[j]);
  }

  lemma EmbeddedStep(g: Schema, m: nat, w: seq<nat>, k: nat, j: nat)
    requires Closed(g) && m < |g| && Finite(g, m) && WalkFrom(g, m, w) && k < |w| && Embedding(g, w, k)
    requires w[|w| - 1] < |g| && j < |g[w[|w| - 1]].fields|
    requires g[w[|w| - 1]].fields[j].kind == Object && g[w[|w| - 1]].fields[j].submap.MapLink?
    ensures var u := w + [g[w[|w| - 1]].fields[j].submap.id];
            WalkFrom(g, m, u) && Embedding(g, u, k) && Ids(g) - Elements(u[k..]) < Ids(g) - Elements(w[k..])
  {
    var n := g[w[|w| - 1]].fields[j].submap.id;
    var u := w + [n];
    FieldEdge(g, w[|w| - 1], j);
    StepWalk(g, w, n);
    assert EmbeddedIn(g[w[|w| - 1]].fields[j], n);
    forall i | k <= i < |u| - 1 ensures Embeds(g, u[i], u[i + 1]) {
      assert i < |w| - 1 ==> Embeds(g, w[i], w[i + 1]);
    }
    assert Simple(u[k..]);
    assert u[k..] == w[k..] + [n];
    forall i | 0 <= i < |w[k..]| ensures w[k..][i] != n {
      assert u[k..][i] == w[k..][i] && u[k..][|w[k..]|] == n;
    }
    assert n in Ids(g) - Elements(w[k..]) && n in Elements(u[k..]);
    assert Elements(w[k..]) <= Elements(u[k..]);
  }

  lemma {:induction false} OwnedInHas(v: FieldValue, parts: seq<FieldValue>, i: nat, j: nat)
    requires (v.Struct? && parts == v.fields) || (v.Objects? && parts == v.elems)
    requires i <= j < |parts| && OwnsBlock(parts[j])
    ensures exists p :: p in OwnedIn(v, parts, i) && p.At?
    decreases j - i
  {
    hide Owned;
    if i < j {
      OwnedInHas(v, parts, i + 1, j);
      var p :| p in OwnedIn(v, parts, i + 1) && p.At?;
      assert p in OwnedIn(v, parts, i);
    } else {
      var p :| p in Owned(parts[j]) && p.At?;
      assert p in OwnedIn(v, parts, i);
    }
  }

  lemma PartOwns(v: FieldValue, j: nat)
    requires (v.Struct? && j < |v.fields| && OwnsBlock(v.fields[j])) || (v.Objects? && j < |v.elems| && OwnsBlock(v.elems[j]))
    ensures OwnsBlock(v)
  {
    var parts := if v.Struct? then v.fields else v.elems;
    OwnedInHas(v, parts, 0, j);
    hide OwnsBlock, OwnedIn;
    var p :| p in OwnedIn(v, parts, 0) && p.At?;
    assert p in Owned(v);
    assert OwnsBlock(v) by { OwnsOne(v, p); }
  }

  lemma OwnsOne(v: FieldValue, p: Ptr)
    requires p in Owned(v) && p.At?
    ensures OwnsBlock(v)
  {
    hide Owned;
  }

  /** A field that owns memory by itself has a value that owns a block. */
  lemma OwningFieldOwns(g: Schema, f: Field)
    requires Closed(g) && LinkOk(g, f) && OwnsMemory(f)
    ensures FieldCanOwn(g, f)
  {
    hide Typed;
    var p := At(0);
    match f.kind
    case StringField | StringStream | Base64Stream | StringSource | Base64Source =>
      OwnsOne(Pointer(p), p);
      assert TypedField(g, f, Pointer(p));
    case JsonField =>
      OwnsOne(Json(p, Null), p);
      assert TypedField(g, f, Json(p, Null));
    case StringArray | I64Array | U64Array | F64Array | BoolArray =>
      OwnsOne(Items(true, p, []), p);
      assert TypedField(g, f, Items(true, p, []));
    case ObjectArray =>
      OwnsOne(Objects(true, p, []), p);
      assert TypedField(g, f, Objects(true, p, []));
  }

  /** So has a field whose structure or elements have one. */
  lemma SubmapFieldOwns(g: Schema, f: Field)
    requires Closed(g) && HasSubmap(f) && f.submap.id < |g| && CanOwn(g, f.submap.id)
    ensures FieldCanOwn(g, f)
  {
    hide Typed, OwnsBlock;
    var x :| Typed(g, MapLink(f.submap.id), x) && OwnsBlock(x);
    if f.kind == Object {
      assert TypedField(g, f, x);
    } else {
      var v := Objects(false, At(0), [x]);
      PartOwns(v, 0);
      assert TypedField(g, f, v);
    }
  }

  /** The last map of a walk owns memory: so does a value of every map on the way. */
  lemma {:induction false} WalkOwns(g: Schema, m: nat, w: seq<nat>, k: nat)
    requires Closed(g) && m < |g| && Analyze(g, m, {}).valid && Finite(g, m)
    requires WalkFrom(g, m, w) && OwnsAt(g, w[|w| - 1]) && k < |w|
    ensures w[k] < |g| && CanOwn(g, w[k])
    decreases |w| - k
  {
    hide Analyze, FieldOk, Typed, TypedField, FieldInhabited, OwnsBlock, Finite, OwnsMemory, CanOwn;
    var n := w[k];
    WalkTake(g, w, k + 1);
    assert w[..k + 1][|w[..k + 1]| - 1] == n;
    ReachedInhabited(g, m, w[..k + 1], k);
    ValidMeans(g, m);
    var j: nat;
    if k == |w| - 1 {
      j :| j < |g[n].fields| && OwnsMemory(g[n].fields[j]);
      EmbeddedMap(g, n, j);
      OwningFieldOwns(g, g[n].fields[j]);
    } else {
      WalkOwns(g, m, w, k + 1);
      assert Edge(g, w[k], w[k + 1]);
      j :| j < |g[n].fields| && Leads(g[n].fields[j], w[k + 1]);
      SubmapFieldOwns(g, g[n].fields[j]);
    }
    var x :| TypedField(g, g[n].fields[j], x) && OwnsBlock(x);
    var v := MapHasValue(g, n, j, x);
    PartOwns(v, j);
    OwnsBy(g, n, v);
  }

  lemma OwnsBy(g: Schema, m: nat, v: FieldValue)
    requires Closed(g) && m < |g| && Typed(g, MapLink(m), v) && OwnsBlock(v)
    ensures CanOwn(g, m)
  {
    hide Typed, OwnsBlock;
  }

  lemma {:induction false} OwningPart(v: FieldValue, parts: seq<FieldValue>, i: nat) returns (j: nat)
    requires (v.Struct? && parts == v.fields) || (v.Objects? && parts == v.elems)
    requires exists p :: p in OwnedIn(v, parts, i) && p.At?
    ensures i <= j < |parts| && OwnsBlock(parts[j])
    decreases |parts| - i
  {
    hide Owned;
    var p :| p in OwnedIn(v, parts, i) && p.At?;
    if p in Owned(parts[i]) {
      j := i;
    } else {
      j := OwningPart(v, parts, i + 1);
    }
  }

  /** A value that owns a block has a field that owns memory below its map. */
  lemma {:induction false} OwnerReached(g: Schema, m: nat, v: FieldValue)
    requires Closed(g) && m < |g| && Typed(g, MapLink(m), v) && OwnsBlock(v)
    ensures ReachesOwner(g, m)
    decreases v, 1
  {
    hide Edge, TypedField, OwnsMemory, Owned;
    assert Owned(v) == OwnedIn(v, v.fields, 0) by { OwnedOfStruct(v); }
    var j := OwningPart(v, v.fields, 0);
    var f := g[m].fields[j];
    assert TypedField(g, f, v.fields[j]);
    if OwnsMemory(f) {
      assert WalkFrom(g, m, [m]) && OwnsAt(g, m);
    } else {
      OwnerReachedBelow(g, f, v.fields[j]);
      FieldEdge(g, m, j);
      var w :| WalkFrom(g, f.submap.id, w) && OwnsAt(g, w[|w| - 1]);
      WalkCons(g, m, w);
      assert ([m] + w)[|[m] + w| - 1] == w[|w| - 1];
    }
  }

  lemma {:induction false} OwnerReachedBelow(g: Schema, f: Field, x: FieldValue)
    requires Closed(g) && TypedField(g, f, x) && !OwnsMemory(f) && OwnsBlock(x)
    ensures HasSubmap(f) && f.submap.id < |g| && ReachesOwner(g, f.submap.id)
    decreases x, 2
  {
    hide ReachesOwner;
    if f.kind == Object {
      OwnerReached(g, TypedLink(g, f.submap, x), x);
    } else if f.kind == ObjectArray {
      var k := OwningPart(x, x.elems, 0);
      OwnerReached(g, TypedLink(g, f.submap, x.elems[k]), x.elems[k]);
    }
  }

  /** A value of a valid map can own a block exactly when a field that owns memory is
      reached. So the answer of the analysis is exact unless it rests on a cycle alone. */
  lemma MayAllocateExactly(g: Schema, m: nat)
    requires Closed(g) && m < |g| && Analyze(g, m, {}).valid && Finite(g, m)
    ensures CanOwn(g, m) ==> Analyze(g, m, {}).mayAllocate
    ensures CanOwn(g, m) <==> ReachesOwner(g, m)
    ensures (Analyze(g, m, {}).mayAllocate <==> CanOwn(g, m)) <==> (ReachesOwner(g, m) || !ReachesCycle(g, m))
  {
    hide Analyze, OwnsAt, Edge, Typed, OwnsBlock, Finite;
    MayAllocateMeans(g, m);
    if CanOwn(g, m) {
      var v :| Typed(g, MapLink(m), v) && OwnsBlock(v);
      OwnerReached(g, m, v);
    }
    if w :| WalkFrom(g, m, w) && OwnsAt(g, w[|w| - 1]) {
      WalkOwns(g, m, w, 0);
    }
  }

  /** A map with a fixed array of itself may allocate by the analysis, and no value of
      it owns anything. */
  lemma CycleOwnsNothing()
    ensures var g := [MapDef(8, [Field(ObjectArray, Fixed, Flags(false, false, false, false, false), 0, 0, 0, 8, MapLink(0))], 0, 0, false)];
            Closed(g) && Analyze(g, 0, {}).valid && Analyze(g, 0, {}).mayAllocate && !CanOwn(g, 0)
  {
    var f := Field(ObjectArray, Fixed, Flags(false, false, false, false, false), 0, 0, 0, 8, MapLink(0));
    var g := [MapDef(8, [f], 0, 0, false)];
    LoopIsValid(g, f);
    hide Analyze, Typed;
    if v :| Typed(g, MapLink(0), v) && OwnsBlock(v) {
      OwnerReached(g, 0, v);
      assert false by { NoOwner(g, f); }
    }
  }

  lemma NoOwner(g: Schema, f: Field)
    requires f.kind == ObjectArray && f.storage == Fixed && |g| == 1 && g[0].fields == [f] && Closed(g)
    ensures !ReachesOwner(g, 0)
  {
    hide Edge;
    forall w | WalkFrom(g, 0, w) ensures !OwnsAt(g, w[|w| - 1]) {
      WalkInSchema(g, w, |w| - 1);
    }
  }

  lemma LoopIsValid(g: Schema, f: Field)
    requires f == Field(ObjectArray, Fixed, Flags(false, false, false, false, false), 0, 0, 0, 8, MapLink(0))
    requires g == [MapDef(8, [f], 0, 0, false)]
    ensures Closed(g) && Analyze(g, 0, {}).valid && Analyze(g, 0, {}).mayAllocate
  {
    hide AlwaysAdopts;
    assert g[0].fields[0] == f;
    assert Leads(f, 0);
    ValidFields(g, 0, {});
    assert Sub(g, f, {} + {0}) == RECURSIVE;
    assert FieldValid(g, 0, 0, {} + {0});
    assert FieldAllocates(g, 0, 0, {} + {0});
  }
}
