/** The direct-mapped cache of map analyses. Sixteen slots are shared by all maps;
    whatever was asked before, an answer is what a fresh analysis says. */
module MapCaches {
  import opened Schemas
  import opened SchemaProofs

  const SLOTS: nat := 16

  /** What is kept of one map. */
  datatype Entry = Entry(used: bool, address: bv64, cookie: bv64,
                         layoutKnown: bool, layoutValid: bool,
                         allocatesKnown: bool, allocates: bool,
                         maskKnown: bool, mask: Mask)

  const EMPTY := Entry(false, 0, 0, false, false, false, false, false, {})

  /** `((bits >> 4) ^ (bits >> 9)) & 15` */
  function SlotIndex(address: bv64): (r: nat)
    ensures r < SLOTS
  {
    LowBits((address >> 4) ^ (address >> 9));
    (((address >> 4) ^ (address >> 9)) & 15) as nat
  }

  lemma LowBits(x: bv64)
    ensures (x & 15) as nat < 16
  {
    assert x & 15 < 16;
  }

  /** A map among others, as they were at some time. */
  datatype Snapshot = Snapshot(maps: Schema, id: nat)

  /** What held for the map with an address and cookie when it was first seen. */
  ghost function Truth(seen: (bv64, bv64) -> Snapshot, address: bv64, cookie: bv64): Analysis {
    var past := seen(address, cookie);
    if Closed(past.maps) && past.id < |past.maps| then Analyze(past.maps, past.id, {}) else Analysis(false, false, {})
  }

  /** Every map that a map with its own address reaches has the contents it had when
      that address and cookie were first seen. */
  ghost predicate Unchanged(seen: (bv64, bv64) -> Snapshot, g: Schema, m: nat)
    requires m < |g|
  {
    g[m].cacheable ==>
      var past := seen(g[m].address, g[m].cookie);
      Closed(past.maps) && past.id == m && m < |past.maps| && SameBelow(g, past.maps, m)
  }

  lemma UnchangedAgrees(seen: (bv64, bv64) -> Snapshot, g: Schema, m: nat)
    requires Closed(g) && m < |g| && g[m].cacheable && Unchanged(seen, g, m)
    ensures Truth(seen, g[m].address, g[m].cookie) == Analyze(g, m, {})
  {
    hide Analyze, SameBelow;
    AnalysisDependsOnReachable(g, seen(g[m].address, g[m].cookie).maps, m, {});
  }

  ghost predicate EntryOk(e: Entry, seen: (bv64, bv64) -> Snapshot) {
    e.used ==>
      && (e.layoutKnown ==> e.layoutValid == Truth(seen, e.address, e.cookie).valid)
      && (e.allocatesKnown ==> e.allocates == Truth(seen, e.address, e.cookie).mayAllocate)
      && (e.maskKnown ==> e.mask == Truth(seen, e.address, e.cookie).adoptMask)
  }

  function Filled(e: Entry, a: Analysis): Entry {
    e.(layoutKnown := true, layoutValid := a.valid, allocatesKnown := true, allocates := a.mayAllocate,
       maskKnown := true, mask := a.adoptMask)
  }

  class MapCache {
    const slots: array<Entry>
    ghost const seen: (bv64, bv64) -> Snapshot

    ghost predicate Valid()
      reads this, slots
    {
      slots.Length == SLOTS && forall i :: 0 <= i < SLOTS ==> EntryOk(slots[i], seen)
    }

    constructor (ghost seen: (bv64, bv64) -> Snapshot)
      ensures Valid() && this.seen == seen && fresh(slots)
    {
      this.seen := seen;
      slots := new Entry[SLOTS](_ => EMPTY);
    }

    /** The slot of a map, emptied first when it holds another. */
    method Slot(g: Schema, m: nat) returns (i: nat)
      requires Valid() && m < |g|
      modifies slots
      ensures Valid() && i < SLOTS
      ensures slots[i].used && slots[i].address == g[m].address && slots[i].cookie == g[m].cookie
    {
      i := SlotIndex(g[m].address);
      if !slots[i].used || slots[i].address != g[m].address || slots[i].cookie != g[m].cookie {
        slots[i] := EMPTY.(used := true, address := g[m].address, cookie := g[m].cookie);
      }
    }

    method Store(i: nat, e: Entry)
      requires Valid() && i < SLOTS && EntryOk(e, seen)
      modifies slots
      ensures Valid()
    {
      slots[i] := e;
    }

    method CachedAnalysis(g: Schema, link: Link) returns (a: Analysis)
      requires Valid() && Closed(g) && (link.MapLink? ==> link.id < |g| && Unchanged(seen, g, link.id))
      modifies slots
      ensures Valid()
      ensures a == if link.MapLink? then Fresh(g, link) else Analysis(false, false, {})
    {
      hide Analyze, Truth, Unchanged;
      if link.NoMap? {
        return Analysis(false, false, {});
      }
      if !g[link.id].cacheable {
        a := AnalyzeMap(g, link);
        return;
      }
      UnchangedAgrees(seen, g, link.id);
      var i := Slot(g, link.id);
      var e := slots[i];
      if e.layoutKnown && e.allocatesKnown && e.maskKnown {
        return Analysis(e.layoutValid, e.allocates, e.mask);
      }
      a := AnalyzeMap(g, link);
      Store(i, Filled(e, a));
    }

    /** Keeps only the layout answer. */
    method LayoutIsValid(g: Schema, link: Link) returns (r: bool)
      requires Valid() && Closed(g) && (link.MapLink? ==> link.id < |g| && Unchanged(seen, g, link.id))
      modifies slots
      ensures Valid()
      ensures r == Fresh(g, link).valid
    {
      hide Analyze, Truth, Unchanged;
      if link.NoMap? {
        return false;
      }
      if !g[link.id].cacheable {
        var a := AnalyzeMap(g, link);
        return a.valid;
      }
      UnchangedAgrees(seen, g, link.id);
      var i := Slot(g, link.id);
      var e := slots[i];
      if e.layoutKnown {
        return e.layoutValid;
      }
      var a := AnalyzeMap(g, link);
      Store(i, e.(layoutKnown := true, layoutValid := a.valid));
      r := a.valid;
    }

    method MayAllocate(g: Schema, link: Link) returns (r: bool)
      requires Valid() && Closed(g) && (link.MapLink? ==> link.id < |g| && Unchanged(seen, g, link.id))
      modifies slots
      ensures Valid()
      ensures r == Fresh(g, link).mayAllocate
    {
      hide Analyze, Truth, Unchanged;
      if link.NoMap? {
        return false;
      }
      if !g[link.id].cacheable {
        var a := AnalyzeMap(g, link);
        return a.mayAllocate;
      }
      UnchangedAgrees(seen, g, link.id);
      var i := Slot(g, link.id);
      var e := slots[i];
      if e.allocatesKnown {
        return e.allocates;
      }
      var a := AnalyzeMap(g, link);
      Store(i, Filled(e, a));
      r := a.mayAllocate;
    }

    method AdoptMask(g: Schema, link: Link) returns (r: Mask)
      requires Valid() && Closed(g) && (link.MapLink? ==> link.id < |g| && Unchanged(seen, g, link.id))
      modifies slots
      ensures Valid()
      ensures r == Fresh(g, link).adoptMask
    {
      hide Analyze, Truth, Unchanged;
      if link.NoMap? {
        return ALL_BITS;
      }
      if !g[link.id].cacheable {
        var a := AnalyzeMap(g, link);
        return a.adoptMask;
      }
      UnchangedAgrees(seen, g, link.id);
      var i := Slot(g, link.id);
      var e := slots[i];
      if e.maskKnown {
        return e.mask;
      }
      var a := AnalyzeMap(g, link);
      Store(i, Filled(e, a));
      r := a.adoptMask;
    }
  }
}
