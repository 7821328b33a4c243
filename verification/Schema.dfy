/** Schema maps and their analysis: a depth-first walk over a graph of maps that
    may be cyclic. A map is known by its index; a missing one is `NoMap`. */
module Schemas {
  datatype Kind =
    | StringField | StringStream | Base64Stream | StringSource | Base64Source | JsonField
    | I64 | U64 | F64 | Bool | Object | StringArray | I64Array | U64Array | F64Array | BoolArray
    | ObjectArray | StringArrayStream | MappedArrayStream | OtherKind

  datatype Storage = Dynamic | Fixed

  datatype Link = NoMap | MapLink(id: nat)

  datatype Flags = Flags(required: bool, omitNull: bool, omitEmpty: bool, hasPresence: bool, acceptNull: bool)

  /** `typeSize` is the size of the C type of a field's kind, where the kind alone
      decides it. */
  datatype Field = Field(kind: Kind, storage: Storage, flags: Flags, offset: nat, presenceOffset: nat,
                         fixedCapacity: nat, typeSize: nat, submap: Link)

  /** `cacheable`: the map carries its own address. */
  datatype MapDef = MapDef(structSize: nat, fields: seq<Field>, address: bv64, cookie: bv64, cacheable: bool)

  type Schema = seq<MapDef>

  const POINTER_SIZE: nat := 8
  const INT_SIZE: nat := 4
  const MASK_BITS: nat := 64

  /** A mask of fields, by the indices of its set bits. */
  type Mask = set<nat>

  const ALL_BITS: Mask := UpTo(MASK_BITS)

  function UpTo(n: nat): (r: set<nat>)
    ensures forall i: nat :: i in r <==> i < n
  {
    if n == 0 then {} else UpTo(n - 1) + {n - 1}
  }

  datatype Analysis = Analysis(valid: bool, mayAllocate: bool, adoptMask: Mask)

  function Ids(g: Schema): set<nat> {
    UpTo(|g|)
  }

  /** Every link leads to a map of the schema. */
  ghost predicate Closed(g: Schema) {
    forall m, i :: 0 <= m < |g| && 0 <= i < |g[m].fields| && g[m].fields[i].submap.MapLink? ==> g[m].fields[i].submap.id < |g|
  }

  // ----- One field -----

  function StorageSize(g: Schema, f: Field): nat {
    match f.kind
    case StringField => if f.storage == Dynamic then POINTER_SIZE else f.fixedCapacity
    case Object => if f.submap.MapLink? && f.submap.id < |g| then g[f.submap.id].structSize else 0
    case OtherKind => 0
    case _ => f.typeSize
  }

  predicate AcceptsPresence(k: Kind) {
    k == I64 || k == U64 || k == F64 || k == Bool
  }

  /** The field lies inside the structure and its flags go together. */
  predicate FieldOk(g: Schema, m: MapDef, f: Field) {
    && StorageSize(g, f) != 0 && f.offset <= m.structSize && StorageSize(g, f) <= m.structSize - f.offset
    && (f.flags.hasPresence ==>
          f.presenceOffset <= m.structSize && INT_SIZE <= m.structSize - f.presenceOffset && AcceptsPresence(f.kind))
    && (f.flags.acceptNull ==> f.flags.hasPresence && AcceptsPresence(f.kind))
    && (f.flags.required ==> !f.flags.omitNull && !f.flags.omitEmpty && !f.flags.hasPresence && !f.flags.acceptNull)
  }

  ghost predicate LocallyOk(g: Schema, m: nat)
    requires m < |g|
  {
    forall i :: 0 <= i < |g[m].fields| ==> FieldOk(g, g[m], g[m].fields[i])
  }

  /** The field itself can own memory, whatever its submap does. */
  predicate OwnsMemory(f: Field) {
    match f.kind
    case StringField => f.storage == Dynamic
    case StringStream | Base64Stream | StringSource | Base64Source | JsonField | StringArray => true
    case I64Array | U64Array | F64Array | BoolArray | ObjectArray => f.storage != Fixed
    case _ => false
  }

  /** The field is analysed through its submap. */
  predicate HasSubmap(f: Field) {
    (f.kind == Object || f.kind == ObjectArray) && f.submap.MapLink?
  }

  /** Kinds whose fields are always examined for blocks they already own. */
  predicate AlwaysAdopts(f: Field) {
    match f.kind
    case StringField => f.storage == Dynamic
    case StringStream | Base64Stream | StringSource | Base64Source | JsonField | StringArray => true
    case I64Array | U64Array | F64Array | BoolArray | ObjectArray => true
    case _ => false
  }

  // ----- The analysis -----

  const RECURSIVE := Analysis(true, true, ALL_BITS)

  /** The analysis of a field's submap below the maps `t`, one of which it may be. */
  ghost function Sub(g: Schema, f: Field, t: set<nat>): Analysis
    requires Closed(g) && HasSubmap(f) && f.submap.id < |g|
    decreases Ids(g) - t, 3
  {
    if f.submap.id in t then RECURSIVE else Analyze(g, f.submap.id, t)
  }

  ghost predicate FieldValid(g: Schema, m: nat, i: nat, t: set<nat>)
    requires Closed(g) && m < |g| && i < |g[m].fields|
    decreases Ids(g) - t, 4
  {
    var f := g[m].fields[i];
    FieldOk(g, g[m], f) && (HasSubmap(f) ==> Sub(g, f, t).valid)
  }

  ghost predicate FieldAllocates(g: Schema, m: nat, i: nat, t: set<nat>)
    requires Closed(g) && m < |g| && i < |g[m].fields|
    decreases Ids(g) - t, 4
  {
    var f := g[m].fields[i];
    OwnsMemory(f) || (HasSubmap(f) && Sub(g, f, t).mayAllocate)
  }

  ghost predicate FieldAdopts(g: Schema, m: nat, i: nat, t: set<nat>)
    requires Closed(g) && m < |g| && i < |g[m].fields|
    decreases Ids(g) - t, 4
  {
    var f := g[m].fields[i];
    AlwaysAdopts(f) || (HasSubmap(f) && Sub(g, f, t).mayAllocate)
  }

  /** The first invalid field from `i` on, or the number of fields. */
  ghost function FirstInvalid(g: Schema, m: nat, i: nat, t: set<nat>): (r: nat)
    requires Closed(g) && m < |g| && i <= |g[m].fields|
    ensures i <= r <= |g[m].fields|
    ensures forall j :: i <= j < r ==> FieldValid(g, m, j, t)
    ensures r < |g[m].fields| ==> !FieldValid(g, m, r, t)
    decreases Ids(g) - t, 5, |g[m].fields| - i
  {
    if i == |g[m].fields| || !FieldValid(g, m, i, t) then i else FirstInvalid(g, m, i + 1, t)
  }

  /** The analysis of map `m` below the maps `s`: it stops at the first invalid
      field, with what the fields before it say. */
  ghost function Analyze(g: Schema, m: nat, s: set<nat>): Analysis
    requires Closed(g) && m < |g| && m !in s
    decreases Ids(g) - s, 2
  {
    var t := s + {m};
    assert m in Ids(g) - s && m !in Ids(g) - t;
    var stop := FirstInvalid(g, m, 0, t);
    Analysis(stop == |g[m].fields|,
             exists j :: 0 <= j < stop && FieldAllocates(g, m, j, t),
             if MASK_BITS < |g[m].fields| then ALL_BITS else set j | 0 <= j < stop && FieldAdopts(g, m, j, t))
  }

  // ----- The analysis as the program runs it -----

  ghost function Elements(stack: seq<nat>): set<nat> {
    set m | m in stack
  }

  /** Walks the frames from the innermost. */
  method StackContains(stack: seq<nat>, map_: nat) returns (found: bool)
    ensures found <==> map_ in Elements(stack)
  {
    var i := 0;
    while i < |stack|
      invariant 0 <= i <= |stack| && map_ !in stack[..i]
    {
      if stack[i] == map_ {
        return true;
      }
      i := i + 1;
    }
    found := false;
  }

  /** Field `i` was reached, and `a` says what the fields before it do. */
  ghost predicate Analyzed(g: Schema, m: nat, i: nat, t: set<nat>, a: Analysis)
    requires Closed(g) && m < |g| && i <= |g[m].fields|
  {
    && a.valid && (forall j :: 0 <= j < i ==> FieldValid(g, m, j, t))
    && (a.mayAllocate <==> exists j :: 0 <= j < i && FieldAllocates(g, m, j, t))
    && a.adoptMask == if MASK_BITS < |g[m].fields| then ALL_BITS else set j | 0 <= j < i && FieldAdopts(g, m, j, t)
  }

  lemma AnalyzedStarts(g: Schema, m: nat, t: set<nat>)
    requires Closed(g) && m < |g|
    ensures Analyzed(g, m, 0, t, Analysis(true, false, if MASK_BITS < |g[m].fields| then ALL_BITS else {}))
  {
  }

  lemma AllocatesMore(g: Schema, m: nat, i: nat, t: set<nat>)
    requires Closed(g) && m < |g| && i < |g[m].fields|
    ensures (exists j :: 0 <= j < i + 1 && FieldAllocates(g, m, j, t)) <==>
            ((exists j :: 0 <= j < i && FieldAllocates(g, m, j, t)) || FieldAllocates(g, m, i, t))
  {
    hide FieldAllocates;
  }

  lemma MaskMore(g: Schema, m: nat, i: nat, t: set<nat>, mask: Mask)
    requires Closed(g) && m < |g| && i < |g[m].fields| <= MASK_BITS
    requires mask == set j | 0 <= j < i && FieldAdopts(g, m, j, t)
    ensures mask != ALL_BITS
    ensures (if FieldAdopts(g, m, i, t) then mask + {i} else mask) == set j | 0 <= j < i + 1 && FieldAdopts(g, m, j, t)
  {
    hide FieldAdopts, UpTo;
    if mask == ALL_BITS {
      AllBitsSet(mask, i);
    }
  }

  lemma AnalyzedMore(g: Schema, m: nat, i: nat, t: set<nat>, a: Analysis)
    requires Closed(g) && m < |g| && i < |g[m].fields| && Analyzed(g, m, i, t, a) && FieldValid(g, m, i, t)
    ensures Analyzed(g, m, i + 1, t,
                     Analysis(true, a.mayAllocate || FieldAllocates(g, m, i, t),
                              if a.adoptMask != ALL_BITS && FieldAdopts(g, m, i, t) then a.adoptMask + {i} else a.adoptMask))
  {
    hide FieldValid, FieldAllocates, FieldAdopts, UpTo;
    AllocatesMore(g, m, i, t);
    if |g[m].fields| <= MASK_BITS {
      MaskMore(g, m, i, t, a.adoptMask);
    }
  }

  /** A mask of fields before the last has a bit that is not set. */
  lemma AllBitsSet(mask: Mask, i: nat)
    requires mask == ALL_BITS && forall j :: j in mask ==> j < i
    ensures MASK_BITS <= i
  {
    assert MASK_BITS - 1 in ALL_BITS;
  }

  lemma AnalyzedStops(g: Schema, m: nat, i: nat, s: set<nat>, a: Analysis)
    requires Closed(g) && m < |g| && m !in s && i <= |g[m].fields| && Analyzed(g, m, i, s + {m}, a)
    requires i == |g[m].fields| || !FieldValid(g, m, i, s + {m})
    ensures Analyze(g, m, s) == a.(valid := i == |g[m].fields|)
  {
    hide FieldValid, FieldAllocates, FieldAdopts;
    assert FirstInvalid(g, m, 0, s + {m}) == i;
  }

  lemma Deeper(g: Schema, m: nat, s: set<nat>)
    requires m < |g| && m !in s
    ensures Ids(g) - (s + {m}) < Ids(g) - s
  {
    assert m in Ids(g) - s && m !in Ids(g) - (s + {m});
  }

  /** The submap of a field below the stack. */
  method AnalyzeSubmap(g: Schema, f: Field, stack: seq<nat>) returns (sub: Analysis)
    requires Closed(g) && HasSubmap(f) && f.submap.id < |g|
    ensures sub == Sub(g, f, Elements(stack))
    decreases Ids(g) - Elements(stack), 1
  {
    hide Analyze;
    var recursive := StackContains(stack, f.submap.id);
    if recursive {
      return RECURSIVE;
    }
    sub := AnalyzeWithStack(g, f.submap.id, stack);
  }

  method AnalyzeWithStack(g: Schema, m: nat, parents: seq<nat>) returns (a: Analysis)
    requires Closed(g) && m < |g| && m !in Elements(parents)
    ensures a == Analyze(g, m, Elements(parents))
    decreases Ids(g) - Elements(parents), 0
  {
    hide Analyze, Analyzed, FieldValid, FieldAllocates, FieldAdopts, FieldOk, Sub;
    ghost var s := Elements(parents);
    ghost var t := s + {m};
    var stack := [m] + parents;
    assert Elements(stack) == t;
    Deeper(g, m, s);
    a := Analysis(true, false, if MASK_BITS < |g[m].fields| then ALL_BITS else {});
    AnalyzedStarts(g, m, t);
    var i := 0;
    while i < |g[m].fields|
      invariant 0 <= i <= |g[m].fields| && Analyzed(g, m, i, t, a)
    {
      var f := g[m].fields[i];
      var ok, allocates, adopts := AnalyzeField(g, m, i, stack);
      if !ok {
        AnalyzedStops(g, m, i, s, a);
        AnalyzedValid(g, m, i, t, a);
        return a.(valid := false);
      }
      AnalyzedMore(g, m, i, t, a);
      AnalyzedValid(g, m, i, t, a);
      if allocates {
        a := a.(mayAllocate := true);
      }
      if a.adoptMask != ALL_BITS && adopts {
        a := a.(adoptMask := a.adoptMask + {i});
      }
      i := i + 1;
    }
    AnalyzedValid(g, m, i, t, a);
    AnalyzedStops(g, m, i, s, a);
  }

  lemma AnalyzedValid(g: Schema, m: nat, i: nat, t: set<nat>, a: Analysis)
    requires Closed(g) && m < |g| && i <= |g[m].fields| && Analyzed(g, m, i, t, a)
    ensures a.valid
  {
  }

  /** One field: whether it is valid, allocates, and is examined for adoption. */
  method AnalyzeField(g: Schema, m: nat, i: nat, stack: seq<nat>) returns (ok: bool, allocates: bool, adopts: bool)
    requires Closed(g) && m < |g| && i < |g[m].fields|
    ensures ok <==> FieldValid(g, m, i, Elements(stack))
    ensures ok ==> (allocates <==> FieldAllocates(g, m, i, Elements(stack)))
    ensures ok ==> (adopts <==> FieldAdopts(g, m, i, Elements(stack)))
    decreases Ids(g) - Elements(stack), 2
  {
    hide Sub, FieldOk;
    var f := g[m].fields[i];
    ok, allocates, adopts := true, false, false;
    if !FieldOk(g, g[m], f) {
      return false, false, false;
    }
    match f.kind
    case StringField =>
      if f.storage == Dynamic {
        allocates, adopts := true, true;
      }
    case StringStream | Base64Stream | StringSource | Base64Source | JsonField | StringArray =>
      allocates, adopts := true, true;
    case Object =>
      if f.submap.MapLink? {
        var sub := AnalyzeSubmap(g, f, stack);
        if !sub.valid {
          return false, allocates, adopts;
        }
        if sub.mayAllocate {
          allocates, adopts := true, true;
        }
      }
    case ObjectArray =>
      if f.submap.MapLink? {
        var sub := AnalyzeSubmap(g, f, stack);
        if !sub.valid {
          return false, allocates, adopts;
        }
        if f.storage != Fixed || sub.mayAllocate {
          allocates := true;
        }
      } else if f.storage != Fixed {
        allocates := true;
      }
      adopts := true;
    case I64Array | U64Array | F64Array | BoolArray =>
      if f.storage != Fixed {
        allocates := true;
      }
      adopts := true;
    case I64 | U64 | F64 | Bool | StringArrayStream | MappedArrayStream | OtherKind =>
  }

  /** The analysis of a map, which may be missing. */
  method AnalyzeMap(g: Schema, link: Link) returns (a: Analysis)
    requires Closed(g) && (link.MapLink? ==> link.id < |g|)
    ensures a == Fresh(g, link)
  {
    if link.NoMap? {
      return Analysis(false, false, ALL_BITS);
    }
    assert Elements([]) == {};
    a := AnalyzeWithStack(g, link.id, []);
  }

  ghost function Fresh(g: Schema, link: Link): Analysis
    requires Closed(g) && (link.MapLink? ==> link.id < |g|)
  {
    if link.NoMap? then Analysis(false, false, ALL_BITS) else Analyze(g, link.id, {})
  }
}
