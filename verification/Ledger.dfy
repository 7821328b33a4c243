/** The budget of parse allocations: every owned block carries the tag of the
    parser that counts it and the bytes it counts for. */
module Ledgers {
  import opened Bytes

  datatype Tag = Untagged | Mine | Other

  /** The header of an owned block; `freed` once it is given back. */
  datatype Block = Block(freed: bool, size: nat, tag: Tag, counted: nat)

  datatype Ptr = Null | At(id: nat)

  function Counted(b: Block): nat {
    if b.tag == Mine then b.counted else 0
  }

  /** The bytes counted for this parser in all blocks. */
  ghost function Total(blocks: seq<Block>): nat {
    if blocks == [] then 0 else Total(blocks[..|blocks| - 1]) + Counted(blocks[|blocks| - 1])
  }

  lemma TotalAppend(blocks: seq<Block>, b: Block)
    ensures Total(blocks + [b]) == Total(blocks) + Counted(b)
  {
    assert (blocks + [b])[..|blocks|] == blocks;
  }

  lemma {:induction false} TotalUpdate(blocks: seq<Block>, i: nat, b: Block)
    requires i < |blocks|
    ensures Counted(blocks[i]) <= Total(blocks)
    ensures Total(blocks[i := b]) == Total(blocks) - Counted(blocks[i]) + Counted(b)
  {
    var n := |blocks| - 1;
    if i < n {
      TotalUpdate(blocks[..n], i, b);
      assert blocks[i := b][..n] == blocks[..n][i := b];
    } else {
      assert blocks[i := b][..n] == blocks[..n];
    }
  }

  lemma {:induction false} NothingCounted(blocks: seq<Block>)
    requires forall i :: 0 <= i < |blocks| ==> blocks[i].tag != Mine
    ensures Total(blocks) == 0
  {
    if blocks != [] {
      NothingCounted(blocks[..|blocks| - 1]);
    }
  }

  /** Subtraction clamped at zero. */
  function Less(a: nat, b: nat): nat {
    if b <= a then a - b else 0
  }

  class Ledger {
    const maxBytes: nat
    var live: nat
    var blocks: seq<Block>

    /** The live count is the sum over the blocks tagged by this parser, and never
        more than a limit that is set. */
    ghost predicate Valid()
      reads this
    {
      && live == Total(blocks) && (maxBytes != 0 ==> live <= maxBytes)
      && (forall i :: 0 <= i < |blocks| && blocks[i].freed ==> blocks[i].tag != Mine)
    }

    /** A pointer that may be used: none, or a block not given back. */
    predicate Usable(p: Ptr)
      reads this`blocks
    {
      p.At? ==> p.id < |blocks| && !blocks[p.id].freed
    }

    constructor (maxBytes: nat, blocks: seq<Block>)
      requires forall i :: 0 <= i < |blocks| ==> blocks[i].tag != Mine
      ensures Valid() && this.maxBytes == maxBytes && this.blocks == blocks && live == 0
    {
      this.maxBytes, this.blocks, live := maxBytes, blocks, 0;
      NothingCounted(blocks);
    }

    function CanGrow(current: nat, next: nat): bool
      reads this
    {
      if maxBytes == 0 || next <= current then true
      else
        var base := Less(live, current);
        base <= maxBytes && next <= maxBytes - base
    }

    function Available(current: nat): nat
      reads this
    {
      if maxBytes == 0 then SIZE_MAX
      else
        var base := Less(live, current);
        if maxBytes <= base then 0 else maxBytes - base
    }

    function CountedBytes(p: Ptr): nat
      requires Usable(p)
      reads this
    {
      if p.Null? then 0 else if blocks[p.id].tag == Mine then blocks[p.id].counted else 0
    }

    /** No counted block exceeds the live count, so the clamps to zero are never
        taken, and growing is allowed exactly when the new total keeps the limit. */
    lemma GrowthIsExact(p: Ptr, next: nat)
      requires Valid() && Usable(p)
      ensures CountedBytes(p) <= live
      ensures CanGrow(CountedBytes(p), next) <==> maxBytes == 0 || live - CountedBytes(p) + next <= maxBytes
      ensures maxBytes != 0 ==> (CanGrow(CountedBytes(p), next) <==> next <= Available(CountedBytes(p)))
    {
      if p.At? {
        TotalUpdate(blocks, p.id, blocks[p.id]);
      }
    }

    method NoteResize(p: Ptr, next: nat)
      requires Valid() && Usable(p) && (p.At? && maxBytes != 0 ==> live - CountedBytes(p) + next <= maxBytes)
      modifies this
      ensures Valid() && forall q :: old(Usable(q)) ==> Usable(q)
      ensures p.Null? ==> live == old(live) && blocks == old(blocks)
      ensures p.At? ==> live == old(live) - old(CountedBytes(p)) + next
                        && blocks == old(blocks)[p.id := old(blocks)[p.id].(tag := Mine, counted := next)]
    {
      if p.Null? {
        return;
      }
      GrowthIsExact(p, next);
      var current := if blocks[p.id].tag == Mine then blocks[p.id].counted else 0;
      live := Less(live, current);
      TotalUpdate(blocks, p.id, blocks[p.id].(tag := Mine, counted := next));
      blocks := blocks[p.id := blocks[p.id].(tag := Mine, counted := next)];
      live := live + next;
    }

    method NoteRelease(p: Ptr)
      requires Valid() && Usable(p)
      modifies this
      ensures Valid() && live == old(live) - old(CountedBytes(p))
      ensures p.Null? ==> blocks == old(blocks)
      ensures p.At? ==> |blocks| == |old(blocks)| && blocks[p.id].tag != Mine && blocks == old(blocks)[p.id := blocks[p.id]]
                        && !blocks[p.id].freed && blocks[p.id].size == old(blocks)[p.id].size
    {
      if p.Null? {
        return;
      }
      GrowthIsExact(p, 0);
      if blocks[p.id].tag == Mine {
        live := Less(live, blocks[p.id].counted);
        TotalUpdate(blocks, p.id, blocks[p.id].(tag := Untagged, counted := 0));
        blocks := blocks[p.id := blocks[p.id].(tag := Untagged, counted := 0)];
      }
    }

    // ----- Owned blocks; `granted` says whether the allocator has memory -----

    method OwnedMalloc(size: nat, granted: bool) returns (p: Ptr)
      requires Valid()
      modifies this`blocks
      ensures Valid() && Usable(p) && forall q :: old(Usable(q)) ==> Usable(q)
      ensures if granted then p == At(|old(blocks)|) && blocks == old(blocks) + [Block(false, size, Untagged, 0)]
              else p == Null && blocks == old(blocks)
    {
      if !granted {
        return Null;
      }
      TotalAppend(blocks, Block(false, size, Untagged, 0));
      p := At(|blocks|);
      blocks := blocks + [Block(false, size, Untagged, 0)];
    }

    method OwnedRealloc(p: Ptr, size: nat, granted: bool) returns (q: Ptr)
      requires Valid() && Usable(p)
      modifies this`blocks
      ensures Valid() && Usable(q) && forall r :: old(Usable(r)) ==> Usable(r)
      ensures CountedBytes(q) == if q.Null? then 0 else old(CountedBytes(p))
      ensures if p.Null? then
                if granted then q == At(|old(blocks)|) && blocks == old(blocks) + [Block(false, size, Untagged, 0)]
                else q == Null && blocks == old(blocks)
              else if size == 0 then q == p && blocks == old(blocks)
              else if granted then q == p && blocks == old(blocks)[p.id := old(blocks)[p.id].(size := size)]
              else q == Null && blocks == old(blocks)
    {
      if p.Null? {
        q := OwnedMalloc(size, granted);
        return;
      }
      if size == 0 {
        return p;
      }
      if !granted {
        return Null;
      }
      TotalUpdate(blocks, p.id, blocks[p.id].(size := size));
      blocks := blocks[p.id := blocks[p.id].(size := size)];
      q := p;
    }

    /** A counted allocation: refused exactly when the allocator has no memory or
        the total would exceed the limit, and then nothing changes. */
    method MallocParse(size: nat, granted: bool) returns (p: Ptr)
      requires Valid()
      modifies this
      ensures Valid() && Usable(p) && forall q :: old(Usable(q)) ==> Usable(q)
      ensures p.Null? <==> !granted || (maxBytes != 0 && maxBytes < old(live) + size)
      ensures p.Null? ==> live == old(live) && blocks == old(blocks)
      ensures p.At? ==> live == old(live) + size && p.id == |old(blocks)| && blocks == old(blocks) + [Block(false, size, Mine, size)]
    {
      hide Total;
      GrowthIsExact(Null, size);
      if !CanGrow(0, size) {
        return Null;
      }
      p := OwnedMalloc(size, granted);
      NoteResize(p, size);
    }

    /** A counted reallocation, refused like an allocation; the block is counted
        for its new size afterwards, whoever counted it before. */
    method ReallocParse(p: Ptr, size: nat, granted: bool) returns (q: Ptr)
      requires Valid() && Usable(p)
      modifies this
      ensures Valid() && Usable(q) && forall r :: old(Usable(r)) ==> Usable(r)
      ensures q.Null? <==> (maxBytes != 0 && maxBytes < old(live) - old(CountedBytes(p)) + size)
                           || (!granted && !(p.At? && size == 0))
      ensures q.Null? ==> live == old(live) && blocks == old(blocks)
      ensures q.At? ==> live == old(live) - old(CountedBytes(p)) + size && CountedBytes(q) == size && (p.At? ==> q == p)
    {
      hide Total;
      GrowthIsExact(p, size);
      var current := CountedBytes(p);
      if !CanGrow(current, size) {
        return Null;
      }
      q := OwnedRealloc(p, size, granted);
      NoteResize(q, size);
    }

    method FreeParse(p: Ptr)
      requires Valid() && Usable(p)
      modifies this
      ensures Valid() && live == old(live) - old(CountedBytes(p))
      ensures |blocks| == |old(blocks)| && forall i :: 0 <= i < |blocks| && p != At(i) ==> blocks[i] == old(blocks)[i]
      ensures p.At? ==> blocks[p.id].freed
    {
      NoteRelease(p);
      if p.At? {
        TotalUpdate(blocks, p.id, blocks[p.id].(freed := true));
        blocks := blocks[p.id := blocks[p.id].(freed := true)];
      }
    }

    /** Counts a block that existed before the parse, unless the limit forbids it. */
    method TryAdopt(p: Ptr) returns (ok: bool)
      requires Valid() && Usable(p)
      modifies this
      ensures Valid() && forall q :: old(Usable(q)) ==> Usable(q)
      ensures (live, blocks, ok) == Adopted(maxBytes, old(live), old(blocks), p)
    {
      hide Total;
      if p.Null? {
        return true;
      }
      var next := blocks[p.id].size;
      GrowthIsExact(p, next);
      var current := CountedBytes(p);
      if !CanGrow(current, next) {
        return false;
      }
      NoteResize(p, next);
      ok := true;
    }
  }

  /** The live count and the blocks after an attempt to adopt a block, and whether
      it fitted. */
  ghost function Adopted(maxBytes: nat, live: nat, blocks: seq<Block>, p: Ptr): (nat, seq<Block>, bool) {
    if p.Null? || |blocks| <= p.id then (live, blocks, true)
    else
      var total := live - Counted(blocks[p.id]) + blocks[p.id].size;
      if total < 0 || (maxBytes != 0 && maxBytes < total) then (live, blocks, false)
      else (total, blocks[p.id := blocks[p.id].(tag := Mine, counted := blocks[p.id].size)], true)
  }
}
