/** Strings decoded straight into their destination: a fixed buffer, through a
    stage when the destination already holds something, or a growing block that
    is handed over at the end. */
module DirectStrings {
  import opened Bytes
  import opened Ledgers

  datatype Policy = Fail | Truncate | TruncateSilently

  /** `memcpy` into an array. */
  method CopyInto(target: array<byte>, at: nat, data: bytes)
    requires at + |data| <= target.Length
    modifies target
    ensures target[..at + |data|] == old(target[..at]) + data
    ensures target[at + |data|..] == old(target[at + |data|..])
  {
    var i := 0;
    while i < |data|
      invariant 0 <= i <= |data|
      invariant forall j :: 0 <= j < at ==> target[j] == old(target[j])
      invariant forall j :: 0 <= j < i ==> target[at + j] == data[j]
      invariant forall j :: at + |data| <= j < target.Length ==> target[j] == old(target[j])
    {
      target[at + i] := data[i];
      i := i + 1;
    }
  }

  /** What fits a buffer of `capacity` bytes together with a terminator. */
  function Fitting(data: bytes, capacity: nat): bytes
    requires 0 < capacity
  {
    data[..Min(|data|, capacity - 1)]
  }

  lemma FittingMore(fed: bytes, data: bytes, capacity: nat, take: nat)
    requires 0 < capacity
    requires take == Min(|data|, if |fed| < capacity - 1 then capacity - 1 - |fed| else 0)
    ensures Fitting(fed + data, capacity) == Fitting(fed, capacity) + data[..take]
  {
  }

  // ----- Fixed destinations -----

  /** Whether a string for this destination is staged: the destination must be kept
      and holds something. */
  predicate NeedsStage(dst: array<byte>, clearDestination: bool)
    requires 0 < dst.Length
    reads dst
  {
    !clearDestination && dst[0] != 0
  }

  /** Starts a string for a fixed destination: in place, or staged in the scratch
      buffer or the token buffer when one of them is large enough, or else in a new
      block that the budget counts. */
  method StartFixed(ledger: Ledger, dst: array<byte>, clearDestination: bool, scratch: array<byte>, token: array<byte>,
                    policy: Policy, granted: bool) returns (status: Status, s: FixedString?)
    requires ledger.Valid() && 0 < dst.Length && dst != scratch && dst != token
    modifies ledger
    ensures ledger.Valid() && (status == Ok <==> s != null)
    ensures var owned := NeedsStage(dst, clearDestination) && scratch.Length < dst.Length && token.Length < dst.Length;
            && status == (if owned && ledger.maxBytes != 0 && ledger.maxBytes < old(ledger.live) + dst.Length then Overflow
                          else if owned && !granted then AllocationFailed else Ok)
            && ledger.live == old(ledger.live) + (if status == Ok && owned then dst.Length else 0)
            && (status != Ok || !owned ==> ledger.blocks == old(ledger.blocks))
            && (s != null ==> (s.Owned() <==> owned))
    ensures s != null ==>
              && fresh(s) && s.Valid() && s.fed == [] && s.dst == dst && s.ledger == ledger && s.policy == policy && s.original == dst[..]
              && (s.Staged() <==> NeedsStage(dst, clearDestination))
              && (s.stage == dst || s.stage == scratch || s.stage == token || fresh(s.stage))
  {
    var stage, block := dst, Null;
    if !clearDestination && dst[0] != 0 {
      if dst.Length <= scratch.Length {
        stage := scratch;
      } else if dst.Length <= token.Length {
        stage := token;
      } else {
        ledger.GrowthIsExact(Null, dst.Length);
        if !ledger.CanGrow(0, dst.Length) {
          return Overflow, null;
        }
        block := ledger.MallocParse(dst.Length, granted);
        if block.Null? {
          return AllocationFailed, null;
        }
        stage := new byte[dst.Length];
      }
    }
    s := new FixedString.Begin(ledger, dst, stage, block, policy);
    status := Ok;
  }

  class FixedString {
    const ledger: Ledger
    const dst: array<byte>
    const stage: array<byte>
    const block: Ptr
    const policy: Policy
    var len: nat
    var truncated: bool

    /** The destination before the string, and everything decoded so far. */
    ghost const original: bytes
    ghost var fed: bytes

    function Capacity(): nat {
      dst.Length
    }

    ghost predicate Staged() {
      stage != dst
    }

    /** The stage is a block of this parse. */
    predicate Owned() {
      block.At?
    }

    /** A staged destination is as it was. */
    ghost predicate Intact()
      reads dst
    {
      Staged() ==> dst[..] == original
    }

    /** An owned stage is counted for its capacity. */
    ghost predicate Counted()
      reads ledger
    {
      ledger.Valid() && ledger.Usable(block) && (Owned() ==> Staged() && ledger.CountedBytes(block) == dst.Length)
    }

    ghost predicate Valid()
      reads this, stage, dst, ledger
    {
      && 0 < Capacity() <= stage.Length && Intact() && Counted()
      && len < Capacity() && stage[..len] == Fitting(fed, Capacity())
      && (truncated <==> Capacity() - 1 < |fed|) && (policy == Fail ==> !truncated)
    }

    constructor Begin(ledger: Ledger, dst: array<byte>, stage: array<byte>, block: Ptr, policy: Policy)
      requires 0 < dst.Length <= stage.Length && ledger.Valid() && ledger.Usable(block)
      requires block.At? ==> stage != dst && ledger.CountedBytes(block) == dst.Length
      ensures Valid() && fed == [] && original == dst[..]
      ensures this.ledger == ledger && this.dst == dst && this.stage == stage && this.block == block && this.policy == policy
    {
      this.ledger, this.dst, this.stage, this.block, this.policy := ledger, dst, stage, block, policy;
      len, truncated := 0, false;
      original, fed := dst[..], [];
    }

    /** Takes decoded bytes: as many as fit. */
    method Append(data: bytes) returns (status: Status)
      requires Valid()
      modifies this, stage
      ensures fed == old(fed) + data && Intact() && Counted()
      ensures status == if policy == Fail && Capacity() - 1 < |fed| then Overflow else Ok
      ensures status == Ok ==> Valid()
      ensures len < Capacity() && stage[..len] == Fitting(fed, Capacity())
    {
      var limit := Capacity() - 1;
      var remaining := if len < limit then limit - len else 0;
      var take := if |data| < remaining then |data| else remaining;
      FittingMore(fed, data, Capacity(), take);
      fed := fed + data;
      if take != 0 {
        CopyInto(stage, len, data[..take]);
        len := len + take;
      }
      if take == |data| {
        return Ok;
      }
      if policy == Fail {
        return Overflow;
      }
      truncated := true;
      status := Ok;
    }

    /** Commits: the destination holds what fits and a terminator, and nothing
        after them has changed. An owned stage is given back. */
    method Finish() returns (status: Status)
      requires Valid()
      modifies this, stage, dst, ledger
      ensures var n := Min(|fed|, Capacity() - 1);
              && dst[..n + 1] == fed[..n] + [0]
              && (Staged() ==> dst[n + 1..] == original[n + 1..])
      ensures status == if policy == Truncate && Capacity() - 1 < |fed| then Truncated else Ok
      ensures fed == old(fed) && Released(old(ledger.live), old(ledger.blocks))
    {
      CopyInto(stage, len, [0]);
      status := if truncated && policy == Truncate then Truncated else Ok;
      if stage != dst {
        CopyInto(dst, 0, stage[..len + 1]);
      }
      if block.At? {
        ledger.FreeParse(block);
      }
    }

    /** The budget after the string: an owned stage is freed and no longer counted. */
    ghost predicate Released(live: nat, blocks: seq<Block>)
      reads ledger
    {
      && ledger.Valid() && ledger.live == live - (if Owned() then Capacity() else 0)
      && (if Owned() then block.id < |ledger.blocks| && ledger.blocks[block.id].freed else ledger.blocks == blocks)
    }

    /** Gives up: whatever the destination holds stays, and an owned stage is given
        back. */
    method Abort()
      requires Intact() && Counted()
      modifies this, ledger
      ensures dst[..] == old(dst[..]) && (Staged() ==> dst[..] == original)
      ensures Released(old(ledger.live), old(ledger.blocks))
    {
      if block.At? {
        ledger.FreeParse(block);
      }
      len, truncated := 0, false;
    }
  }

  // ----- Dynamic destinations -----

  /** The first of `capacity`, its double, and so on that holds `required` bytes;
      exactly `required` where a double on the way is no size. */
  function Doubled(capacity: nat, required: nat): (r: nat)
    requires 0 < capacity
    ensures required <= r && capacity <= r
    decreases required - capacity
  {
    if required <= capacity then capacity
    else if SIZE_MAX < capacity * 2 then required
    else Doubled(capacity * 2, required)
  }

  /** The doubled capacity, but no more than the limit on strings needs. */
  function GrownCapacity(capacity: nat, required: nat, limit: nat): nat
    requires 0 < capacity
  {
    if limit != 0 && limit != SIZE_MAX && limit + 1 < Doubled(capacity, required) then limit + 1 else Doubled(capacity, required)
  }

  /** Doubling does not pass what is required by more than a factor of two. */
  lemma {:induction false} DoubledIsLess(capacity: nat, required: nat)
    requires 0 < capacity < required <= SIZE_MAX
    ensures Doubled(capacity, required) < required * 2 && Doubled(capacity, required) <= SIZE_MAX
    decreases required - capacity
  {
    if capacity * 2 <= SIZE_MAX && capacity * 2 < required {
      DoubledIsLess(capacity * 2, required);
    }
  }

  /** The capacity a string grows to. */
  method NextCapacity(capacity: nat, required: nat, limit: nat) returns (next: nat)
    requires 0 < capacity < required <= SIZE_MAX && limit <= SIZE_MAX && (limit != 0 ==> required <= limit + 1)
    ensures next == GrownCapacity(capacity, required, limit)
    ensures required <= next <= SIZE_MAX && (limit != 0 && limit != SIZE_MAX ==> next <= limit + 1)
  {
    DoubledIsLess(capacity, required);
    next := capacity;
    while next < required
      invariant 0 < next <= SIZE_MAX && Doubled(next, required) == Doubled(capacity, required)
      decreases required - next
    {
      var grown := next * 2 % (SIZE_MAX + 1);
      DoublingWraps(next);
      if grown <= next {
        next := required;
        break;
      }
      next := grown;
    }
    if limit != 0 && limit != SIZE_MAX && limit + 1 < next {
      next := limit + 1;
    }
  }

  lemma DoublingWraps(n: nat)
    requires 0 < n <= SIZE_MAX
    ensures if SIZE_MAX < n * 2 then n * 2 % (SIZE_MAX + 1) <= n else n * 2 % (SIZE_MAX + 1) == n * 2
  {
  }

  /** The first capacity: 64 bytes, less when the limit on strings or the budget
      allows less. */
  function InitialCapacity(limit: nat, available: nat): nat {
    var wanted := if limit != 0 && limit != SIZE_MAX && limit + 1 < 64 then limit + 1 else 64;
    if available != SIZE_MAX && available < wanted then available else wanted
  }

  /** A block of `c` bytes is no longer than the longest string with its terminator,
      and the budget has room for it. */
  predicate RoomFor(c: nat, limit: nat, maxBytes: nat, live: nat) {
    (limit == 0 || c <= limit + 1) && (maxBytes == 0 || live + c <= maxBytes)
  }

  /** Starts a dynamic string with the longest block of at most 64 bytes there is room
      for, and charges it. It fails only when nothing is left of the budget or
      the allocator has no memory, and then nothing changes. */
  method StartDynamic(ledger: Ledger, limit: nat, granted: bool) returns (status: Status, s: DynamicString?)
    requires ledger.Valid() && limit <= SIZE_MAX && ledger.maxBytes <= SIZE_MAX
    modifies ledger
    ensures ledger.Valid() && (status == Ok <==> s != null)
    ensures status == if ledger.maxBytes != 0 && ledger.maxBytes <= old(ledger.live) then Overflow
                      else if granted then Ok else AllocationFailed
    ensures s != null ==> s.Valid() && s.fed == [] && s.ledger == ledger && s.limit == limit && fresh(s) && fresh(s.buffer)
    ensures s != null ==> ledger.live == old(ledger.live) + s.buffer.Length
                          && ledger.blocks == old(ledger.blocks) + [Block(false, s.buffer.Length, Mine, s.buffer.Length)]
    ensures s != null ==> forall c: nat :: c <= s.buffer.Length <==> c <= 64 && RoomFor(c, limit, ledger.maxBytes, old(ledger.live))
    ensures s == null ==> ledger.live == old(ledger.live) && ledger.blocks == old(ledger.blocks)
  {
    var capacity := InitialCapacity(limit, ledger.Available(0));
    if capacity == 0 {
      return Overflow, null;
    }
    ledger.GrowthIsExact(Null, capacity);
    if !ledger.CanGrow(0, capacity) {
      return Overflow, null;
    }
    var block := ledger.MallocParse(capacity, granted);
    if block.Null? {
      return AllocationFailed, null;
    }
    s := new DynamicString.Begin(ledger, limit, block, capacity);
    status := Ok;
  }

  /** The budget allows the block of a string to grow. */
  predicate GrowthAllowed(maxBytes: nat, live: nat, capacity: nat, required: nat, limit: nat)
    requires 0 < capacity
  {
    maxBytes == 0 || live - capacity + GrownCapacity(capacity, required, limit) <= maxBytes
  }

  /** The capacity doubles before the budget is asked, so a string may be refused
      though a block of just its size would fit the budget. */
  lemma FittingStringRefused()
    ensures var capacity, live, required, maxBytes := 64, 64, 71, 100;
            live - capacity + required <= maxBytes && !GrowthAllowed(maxBytes, live, capacity, required, 0)
  {
    assert Doubled(64, 71) == Doubled(128, 71) == 128;
  }

  /** The other way round, a string the budget refuses needs more than half of what
      the budget leaves it. */
  lemma RefusedStringIsLarge(maxBytes: nat, live: nat, capacity: nat, required: nat, limit: nat)
    requires 0 < capacity < required <= SIZE_MAX && capacity <= live && !GrowthAllowed(maxBytes, live, capacity, required, limit)
    ensures maxBytes < live - capacity + required * 2
  {
    DoubledIsLess(capacity, required);
  }

  class DynamicString {
    const ledger: Ledger
    const limit: nat
    var block: Ptr
    var buffer: array<byte>
    var len: nat
    ghost var fed: bytes

    ghost predicate Valid()
      reads this, buffer, ledger
    {
      && ledger.Valid() && block.At? && ledger.Usable(block) && ledger.CountedBytes(block) == buffer.Length
      && len < buffer.Length <= SIZE_MAX && limit <= SIZE_MAX && buffer[..len] == fed
      && (limit != 0 ==> len <= limit)
    }

    /** A block for the string, already allocated with its first capacity. */
    constructor Begin(ledger: Ledger, limit: nat, block: Ptr, capacity: nat)
      requires ledger.Valid() && limit <= SIZE_MAX && 0 < capacity <= SIZE_MAX
      requires block.At? && ledger.Usable(block) && ledger.CountedBytes(block) == capacity
      ensures Valid() && fed == [] && this.ledger == ledger && this.limit == limit && this.block == block && fresh(buffer)
    {
      this.ledger, this.limit, this.block := ledger, limit, block;
      buffer := new byte[capacity](_ => 0);
      len, fed := 0, [];
    }

    /** Takes decoded bytes: in full exactly when the string keeps its limit and
        either fits its block or can grow. On failure nothing changes. */
    method Append(data: bytes, granted: bool) returns (status: Status)
      requires Valid() && len + |data| < SIZE_MAX
      modifies this, buffer, ledger
      ensures Valid() && (buffer == old(buffer) || fresh(buffer))
      ensures fed == if status == Ok then old(fed) + data else old(fed)
      ensures status == Ok <==>
                && (limit == 0 || old(len) + |data| <= limit)
                && (old(len) + |data| + 1 <= old(buffer.Length)
                    || (granted && GrowthAllowed(ledger.maxBytes, old(ledger.live), old(buffer.Length), old(len) + |data| + 1, limit)))
      ensures status == AllocationFailed <==>
                status != Ok && (limit == 0 || old(len) + |data| <= limit)
                && GrowthAllowed(ledger.maxBytes, old(ledger.live), old(buffer.Length), old(len) + |data| + 1, limit)
      ensures status == Ok || status == Overflow || status == AllocationFailed
      ensures status != Ok ==> ledger.live == old(ledger.live) && ledger.blocks == old(ledger.blocks) && len == old(len)
    {
      hide Ledger.Valid, GrownCapacity, Doubled;
      var required := len + |data| + 1;
      if limit != 0 && limit < len + |data| {
        return Overflow;
      }
      if buffer.Length < required {
        var next := NextCapacity(buffer.Length, required, limit);
        ledger.GrowthIsExact(block, next);
        if !ledger.CanGrow(ledger.CountedBytes(block), next) {
          return Overflow;
        }
        var ok := Grow(next, granted);
        if !ok {
          return AllocationFailed;
        }
      }
      CopyInto(buffer, len, data);
      len := len + |data|;
      fed := fed + data;
      status := Ok;
    }

    method Grow(next: nat, granted: bool) returns (ok: bool)
      requires Valid() && buffer.Length < next <= SIZE_MAX
      requires ledger.maxBytes == 0 || ledger.live - buffer.Length + next <= ledger.maxBytes
      modifies this, ledger
      ensures Valid() && fed == old(fed) && len == old(len)
      ensures if ok then fresh(buffer) && buffer.Length == next else buffer == old(buffer) && block == old(block)
      ensures ok <==> granted
      ensures !ok ==> ledger.live == old(ledger.live) && ledger.blocks == old(ledger.blocks)
    {
      hide Ledger.Valid;
      var moved := ledger.ReallocParse(block, next, granted);
      if moved.Null? {
        return false;
      }
      block := moved;
      ghost var text := buffer[..len];
      var was := buffer;
      buffer := new byte[next](i requires 0 <= i < next reads was => if i < was.Length then was[i] else 0);
      assert buffer[..len] == text;
      ok := true;
    }

    /** Hands the whole string over and frees what the destination held. */
    method Finish(old_: Ptr) returns (dst: Ptr)
      requires Valid() && ledger.Usable(old_) && old_ != block
      modifies this, buffer, ledger
      ensures dst == block == old(block) && ledger.Valid() && ledger.Usable(dst)
      ensures len == |fed| < buffer.Length && buffer[..len] == fed && buffer[len] == 0 && fed == old(fed)
      ensures old_.At? ==> old_.id < |ledger.blocks| && ledger.blocks[old_.id].freed
    {
      buffer[len] := 0;
      dst := block;
      ledger.FreeParse(old_);
    }

    /** Gives up: the block is freed and no longer counted. */
    method Abort()
      requires Valid()
      modifies this, ledger
      ensures ledger.Valid() && ledger.live == old(ledger.live) - old(buffer.Length)
      ensures block == old(block) && block.id < |ledger.blocks| && ledger.blocks[block.id].freed
    {
      ledger.FreeParse(block);
    }
  }
}
