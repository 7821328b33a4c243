/** The stack of path segments of the visitor with locations. Segments point
    into per-frame buffers: an inline key, a heap block that replaces it when a
    key outgrows it, or the text of an array index. Buffers are named, and the
    memory maps each live one to its bytes, so a freed one cannot be read. */
module PathStacks {
  import opened Bytes
  import opened Scanner
  import opened Trace

  const INLINE_KEY: nat := 64
  const INDEX_TEXT: nat := 32

  /** Room for the digits of a size, and more: three for each of its bytes. */
  const REVERSED: nat := 25

  datatype Buffer = InlineKey(frame: nat) | IndexText(frame: nat) | Block(id: nat)

  datatype Frame = Frame(hasKey: bool, key: Buffer, keyLen: nat, keyCap: nat, keyHeap: bool, nextIndex: nat)

  datatype Slice = Slice(data: Buffer, len: nat)

  /** `memcpy` into a buffer. */
  function Write(buffer: bytes, at: nat, data: bytes): (r: bytes)
    requires at + |data| <= |buffer|
    ensures |r| == |buffer| && r[..at] == buffer[..at] && r[at..at + |data|] == data
    ensures r[at + |data|..] == buffer[at + |data|..]
  {
    buffer[..at] + data + buffer[at + |data|..]
  }

  // ----- Allocation -----

  /** The sizes of a frame and of a segment. */
  const FRAME_SIZE: nat := 136
  const SEGMENT_SIZE: nat := 16

  /** One segment more than the depth limit; at the largest limit it wraps to zero. */
  function PathCapacity(maxDepth: nat): nat {
    (maxDepth + 1) % (SIZE_MAX + 1)
  }

  /** The elements of a block asked for as a number of elements times their size,
      a product that may wrap. */
  function Allocated(capacity: nat, elementSize: nat): nat
    requires 0 < elementSize
  {
    capacity * elementSize % (SIZE_MAX + 1) / elementSize
  }

  /** The frames and the segments of the whole capacity are allocated. */
  predicate CapacityIsAllocated(maxDepth: nat) {
    var capacity := PathCapacity(maxDepth);
    Allocated(capacity, FRAME_SIZE) == capacity && Allocated(capacity, SEGMENT_SIZE) == capacity
  }

  /** The products do not wrap; at the largest depth limit they are zero. */
  predicate DepthIsAllocatable(maxDepth: nat) {
    maxDepth == SIZE_MAX || (maxDepth + 1) * FRAME_SIZE <= SIZE_MAX
  }

  lemma AllocatedInFull(capacity: nat)
    requires capacity * FRAME_SIZE <= SIZE_MAX
    ensures Allocated(capacity, FRAME_SIZE) == capacity && Allocated(capacity, SEGMENT_SIZE) == capacity
  {
  }

  lemma AllocatedInPart(capacity: nat)
    requires SIZE_MAX < capacity * FRAME_SIZE
    ensures Allocated(capacity, FRAME_SIZE) < capacity
  {
    assert SIZE_MAX / FRAME_SIZE < capacity;
    assert Allocated(capacity, FRAME_SIZE) <= SIZE_MAX / FRAME_SIZE;
  }

  /** Every frame of the capacity, which closing the stack walks through, is
      allocated exactly when the products do not wrap. */
  lemma CapacityIsAllocatedExactly(maxDepth: nat)
    requires maxDepth <= SIZE_MAX
    ensures CapacityIsAllocated(maxDepth) <==> DepthIsAllocatable(maxDepth)
  {
    hide Allocated;
    var capacity := PathCapacity(maxDepth);
    if capacity * FRAME_SIZE <= SIZE_MAX {
      AllocatedInFull(capacity);
    } else {
      AllocatedInPart(capacity);
    }
  }

  /** A depth limit at which both blocks are empty though the capacity is not. */
  lemma NothingAllocated()
    ensures var maxDepth := 0x1FFF_FFFF_FFFF_FFFF;
            && 0 < PathCapacity(maxDepth) && !DepthIsAllocatable(maxDepth)
            && Allocated(PathCapacity(maxDepth), FRAME_SIZE) == Allocated(PathCapacity(maxDepth), SEGMENT_SIZE) == 0
  {
  }

  // ----- Decimal text -----

  function Reverse(s: bytes): (r: bytes)
    ensures |r| == |s|
  {
    if s == [] then [] else Reverse(s[1..]) + [s[0]]
  }

  lemma ReverseAppend(s: bytes, b: byte)
    ensures Reverse(s + [b]) == [b] + Reverse(s)
  {
    if s != [] {
      ReverseAppend(s[1..], b);
      assert (s + [b])[1..] == s[1..] + [b];
    }
  }

  lemma {:induction false} ReverseAt(s: bytes, i: nat)
    requires i < |s|
    ensures Reverse(s)[i] == s[|s| - 1 - i]
  {
    if i < |s| - 1 {
      ReverseAt(s[1..], i);
    }
  }

  ghost function Pow10(k: nat): nat {
    if k == 0 then 1 else 10 * Pow10(k - 1)
  }

  lemma SizeHasTwentyDigits()
    ensures SIZE_MAX < Pow10(20) <= Pow10(25)
  {
    assert Pow10(5) == 100000;
    assert Pow10(10) == 10000000000;
    assert Pow10(15) == 1000000000000000;
    assert Pow10(20) == 100000000000000000000;
  }

  /** The digits still to come in front. */
  ghost function LeadDigits(v: nat): bytes {
    if v == 0 then [] else Decimal(v)
  }

  lemma OneDigitLess(v: nat, k: nat)
    requires 0 < v < Pow10(k)
    ensures 0 < k && v / 10 < Pow10(k - 1)
  {
  }

  lemma DigitsStep(v: nat, reversed: bytes)
    requires 0 < v
    ensures LeadDigits(v / 10) + Reverse(reversed + [ZERO + v % 10]) == LeadDigits(v) + Reverse(reversed)
  {
    hide Reverse;
    ReverseAppend(reversed, ZERO + v % 10);
    assert LeadDigits(v) == LeadDigits(v / 10) + [ZERO + v % 10];
    assert LeadDigits(v / 10) + [ZERO + v % 10] + Reverse(reversed) == LeadDigits(v / 10) + ([ZERO + v % 10] + Reverse(reversed));
  }

  lemma DigitsFirst(value: nat)
    requires value <= SIZE_MAX
    ensures value / 10 < Pow10(19)
    ensures Decimal(value) == LeadDigits(value / 10) + Reverse([ZERO + value % 10])
  {
    SizeHasTwentyDigits();
    assert Pow10(20) == 10 * Pow10(19);
    assert Reverse([ZERO + value % 10]) == [ZERO + value % 10];
  }

  lemma DigitsLast(reversed: bytes)
    ensures LeadDigits(0) + Reverse(reversed) == Reverse(reversed)
  {
  }

  /** The digits of `value`, least significant first, as the formatter collects
      them before it knows how many there are. */
  method Digits(value: nat) returns (reversed: bytes)
    requires value <= SIZE_MAX
    ensures Reverse(reversed) == Decimal(value) && |reversed| <= 20
  {
    hide Pow10, Decimal, Reverse, LeadDigits;
    var v: nat := value;
    DigitsFirst(value);
    reversed := [ZERO + v % 10];
    v := v / 10;
    while v != 0 && |reversed| < REVERSED
      invariant 1 <= |reversed| <= 20 && v < Pow10(20 - |reversed|)
      invariant LeadDigits(v) + Reverse(reversed) == Decimal(value)
    {
      OneDigitLess(v, 20 - |reversed|);
      DigitsStep(v, reversed);
      reversed := reversed + [ZERO + v % 10];
      v := v / 10;
    }
    DigitsLast(reversed);
  }

  /** Writes the decimal text of a size and a terminator, unless the output is
      too small; the result is the length either way. */
  method FormatDecimal(out: bytes, value: nat) returns (len: nat, out': bytes)
    requires value <= SIZE_MAX
    ensures len == |Decimal(value)| <= 20 && |out'| == |out|
    ensures if |out| <= len then out' == out else out'[..len] == Decimal(value) && out'[len] == 0
  {
    var reversed := Digits(value);
    len, out' := |reversed|, out;
    if |out| <= len {
      return;
    }
    var i := 0;
    while i < len
      invariant 0 <= i <= len && |out'| == |out| && out'[..i] == Decimal(value)[..i]
    {
      ReverseAt(reversed, i);
      out' := out'[i := reversed[len - 1 - i]];
      i := i + 1;
    }
    out' := out'[len := 0];
  }

  // ----- What a stack keeps -----

  /** The inline buffers of frame `i` exist, and its key fits its buffer. */
  ghost predicate FrameOk(m: map<Buffer, bytes>, fs: seq<Frame>, nextBlock: nat, i: nat)
    requires i < |fs|
  {
    var f := fs[i];
    && InlineKey(i) in m && |m[InlineKey(i)]| == INLINE_KEY
    && IndexText(i) in m && |m[IndexText(i)]| == INDEX_TEXT
    && (if f.hasKey then
          && f.key in m && |m[f.key]| == f.keyCap && f.keyLen < f.keyCap
          && (if f.keyHeap then f.key.Block? && f.key.id < nextBlock else f.key == InlineKey(i))
        else !f.keyHeap && f.keyLen == 0)
  }

  /** Every heap block is the key of a frame. */
  ghost predicate Owned(fs: seq<Frame>, b: nat) {
    exists i :: 0 <= i < |fs| && fs[i].keyHeap && fs[i].key == Block(b)
  }

  ghost predicate OwnedFrom(fs: seq<Frame>, k: nat, b: nat) {
    exists i :: k <= i < |fs| && fs[i].keyHeap && fs[i].key == Block(b)
  }

  /** Frames are in order, share no heap block, and leak none. */
  ghost predicate Framed(m: map<Buffer, bytes>, fs: seq<Frame>, nextBlock: nat) {
    && (forall i :: 0 <= i < |fs| ==> FrameOk(m, fs, nextBlock, i))
    && (forall i, j :: 0 <= i < |fs| && 0 <= j < |fs| && i != j && fs[i].keyHeap && fs[j].keyHeap ==> fs[i].key != fs[j].key)
    && (forall b: nat :: Block(b) in m ==> b < nextBlock && Owned(fs, b))
  }

  /** Segment `i` points at live bytes: the index text or the whole key of frame `i`. */
  ghost predicate SegmentOk(m: map<Buffer, bytes>, fs: seq<Frame>, gs: seq<Slice>, i: nat)
    requires i < |fs| && i < |gs|
  {
    && gs[i].data in m && gs[i].len <= |m[gs[i].data]|
    && (gs[i].data == IndexText(i) || (fs[i].hasKey && gs[i].data == fs[i].key && gs[i].len == fs[i].keyLen))
  }

  /** Buffers that only frame `i` may write, `Block(nextBlock)` being the next
      one it allocates. */
  ghost predicate OfFrame(fs: seq<Frame>, nextBlock: nat, i: nat, b: Buffer)
    requires i < |fs|
  {
    b == InlineKey(i) || b == IndexText(i) || (fs[i].keyHeap && b == fs[i].key) || b == Block(nextBlock)
  }

  /** Frame `i` became `f` and nothing but its own buffers changed. */
  ghost predicate FrameChange(m: map<Buffer, bytes>, fs: seq<Frame>, nextBlock: nat,
                              m': map<Buffer, bytes>, nextBlock': nat, i: nat, f: Frame) {
    && i < |fs| && nextBlock <= nextBlock' <= nextBlock + 1
    && (forall b :: !OfFrame(fs, nextBlock, i, b) ==> (b in m <==> b in m') && (b in m ==> m[b] == m'[b]))
    && FrameOk(m', fs[i := f], nextBlock', i)
    && (forall b: nat :: OfFrame(fs, nextBlock, i, Block(b)) && Block(b) in m' ==> f.keyHeap && f.key == Block(b))
    && (f.keyHeap ==> (fs[i].keyHeap && f.key == fs[i].key) || f.key == Block(nextBlock))
  }

  lemma FrameChangeKeeps(m: map<Buffer, bytes>, fs: seq<Frame>, nextBlock: nat,
                         m': map<Buffer, bytes>, nextBlock': nat, i: nat, f: Frame)
    requires Framed(m, fs, nextBlock) && FrameChange(m, fs, nextBlock, m', nextBlock', i, f)
    ensures Framed(m', fs[i := f], nextBlock')
  {
    var fs' := fs[i := f];
    forall j | 0 <= j < |fs'| ensures FrameOk(m', fs', nextBlock', j) {
      if j != i {
        assert FrameOk(m, fs, nextBlock, j) && FrameOk(m, fs, nextBlock, i);
      }
    }
    forall b: nat | Block(b) in m' ensures b < nextBlock' && Owned(fs', b) {
      if OfFrame(fs, nextBlock, i, Block(b)) {
        assert fs'[i].keyHeap;
      } else {
        assert Owned(fs, b);
        var j :| 0 <= j < |fs| && fs[j].keyHeap && fs[j].key == Block(b);
        assert fs'[j] == fs[j];
      }
    }
    forall j, k | 0 <= j < |fs'| && 0 <= k < |fs'| && j != k && fs'[j].keyHeap && fs'[k].keyHeap
      ensures fs'[j].key != fs'[k].key
    {
      assert FrameOk(m, fs, nextBlock, j) && FrameOk(m, fs, nextBlock, k);
    }
  }

  lemma FramedAt(m: map<Buffer, bytes>, fs: seq<Frame>, nextBlock: nat, i: nat)
    requires Framed(m, fs, nextBlock) && i < |fs|
    ensures FrameOk(m, fs, nextBlock, i) && forall b: nat :: Block(b) in m ==> b < nextBlock && Owned(fs, b)
  {
  }

  /** Data and its terminator written after the first `len` bytes of a buffer. */
  lemma KeyWritten(buffer: bytes, len: nat, data: bytes, after: bytes)
    requires len + |data| < |buffer| && after == Write(Write(buffer, len, data), len + |data|, [0])
    ensures after[..len + |data|] == buffer[..len] + data
  {
  }

  ghost predicate Segmented(m: map<Buffer, bytes>, fs: seq<Frame>, gs: seq<Slice>, depth: nat) {
    && depth <= |gs| == |fs|
    && (forall i :: 0 <= i < depth ==> SegmentOk(m, fs, gs, i))
  }

  /** The bytes a segment points at; there are none to read in a freed buffer. */
  predicate Readable(m: map<Buffer, bytes>, g: Slice) {
    g.data in m && g.len <= |m[g.data]|
  }

  /** The location that segments spell. */
  function PathOf(m: map<Buffer, bytes>, gs: seq<Slice>, depth: nat): (r: seq<bytes>)
    requires depth <= |gs| && forall i :: 0 <= i < depth ==> Readable(m, gs[i])
    ensures |r| == depth
  {
    seq(depth, i requires 0 <= i < depth && Readable(m, gs[i]) => m[gs[i].data][..gs[i].len])
  }

  lemma SegmentsReadable(m: map<Buffer, bytes>, fs: seq<Frame>, gs: seq<Slice>, depth: nat)
    requires Segmented(m, fs, gs, depth)
    ensures forall i :: 0 <= i < depth ==> Readable(m, gs[i])
  {
    forall i | 0 <= i < depth ensures Readable(m, gs[i]) {
      assert SegmentOk(m, fs, gs, i);
    }
  }

  /** Segments of the frames below still point at the same bytes. */
  lemma FrameChangePath(m: map<Buffer, bytes>, fs: seq<Frame>, nextBlock: nat,
                        m': map<Buffer, bytes>, nextBlock': nat, i: nat, f: Frame, gs: seq<Slice>)
    requires Framed(m, fs, nextBlock) && FrameChange(m, fs, nextBlock, m', nextBlock', i, f)
    requires Segmented(m, fs, gs, i)
    ensures Segmented(m', fs[i := f], gs, i)
    ensures (forall j :: 0 <= j < i ==> Readable(m, gs[j]) && Readable(m', gs[j])) && PathOf(m', gs, i) == PathOf(m, gs, i)
  {
    SegmentsReadable(m, fs, gs, i);
    forall j | 0 <= j < i
      ensures SegmentOk(m', fs[i := f], gs, j) && Readable(m', gs[j]) && m'[gs[j].data] == m[gs[j].data]
    {
      assert FrameOk(m, fs, nextBlock, j) && FrameOk(m, fs, nextBlock, i);
      assert SegmentOk(m, fs, gs, j);
      assert !OfFrame(fs, nextBlock, i, gs[j].data);
    }
  }

  /** New bytes in the key's buffer are a change of its frame alone. */
  lemma KeyWriteChanges(m: map<Buffer, bytes>, fs: seq<Frame>, nextBlock: nat, i: nat, len: nat, buffer: bytes)
    requires Framed(m, fs, nextBlock) && i < |fs| && fs[i].hasKey && len < |buffer| == fs[i].keyCap
    ensures FrameChange(m, fs, nextBlock, m[fs[i].key := buffer], nextBlock, i, fs[i].(keyLen := len))
  {
    assert FrameOk(m, fs, nextBlock, i);
  }

  /** So is moving the key to a new block, the old one freed. */
  lemma KeyMoveChanges(m: map<Buffer, bytes>, fs: seq<Frame>, nextBlock: nat, i: nat, buffer: bytes)
    requires Framed(m, fs, nextBlock) && i < |fs| && fs[i].hasKey && fs[i].keyLen < |buffer|
    ensures var moved := m[Block(nextBlock) := buffer];
            FrameChange(m, fs, nextBlock, if fs[i].keyHeap then moved - {fs[i].key} else moved, nextBlock + 1, i,
                        fs[i].(key := Block(nextBlock), keyCap := |buffer|, keyHeap := true))
  {
    assert FrameOk(m, fs, nextBlock, i);
  }

  /** So is giving a frame without a key its inline one. */
  lemma InlineKeyChanges(m: map<Buffer, bytes>, fs: seq<Frame>, nextBlock: nat, i: nat)
    requires Framed(m, fs, nextBlock) && i < |fs| && !fs[i].hasKey
    ensures FrameChange(m, fs, nextBlock, m, nextBlock, i, fs[i].(hasKey := true, key := InlineKey(i), keyCap := INLINE_KEY))
  {
    assert FrameOk(m, fs, nextBlock, i);
  }

  /** A segment is pushed. */
  lemma SegmentPushed(m: map<Buffer, bytes>, fs: seq<Frame>, gs: seq<Slice>, depth: nat, g: Slice)
    requires Segmented(m, fs, gs, depth) && depth < |gs| && SegmentOk(m, fs, gs[depth := g], depth)
    ensures Segmented(m, fs, gs[depth := g], depth + 1)
    ensures var gs' := gs[depth := g]; forall i :: 0 <= i < depth + 1 ==> Readable(m, gs'[i])
    ensures forall i :: 0 <= i < depth ==> Readable(m, gs[i])
    ensures PathOf(m, gs[depth := g], depth + 1) == PathOf(m, gs, depth) + [m[g.data][..g.len]]
  {
    SegmentsReadable(m, fs, gs, depth);
    var gs' := gs[depth := g];
    forall i | 0 <= i < depth ensures SegmentOk(m, fs, gs', i) {
      assert SegmentOk(m, fs, gs, i);
    }
    SegmentsReadable(m, fs, gs', depth + 1);
  }

  /** A key's current bytes. */
  ghost function KeyOf(m: map<Buffer, bytes>, f: Frame): bytes {
    if f.hasKey && f.key in m && f.keyLen <= |m[f.key]| then m[f.key][..f.keyLen] else []
  }

  /** The capacity for `need` bytes: doubled until it suffices. */
  method GrowCapacity(cap: nat, need: nat) returns (r: nat)
    requires need <= SIZE_MAX
    ensures need <= r && cap <= r && (cap <= SIZE_MAX ==> r <= SIZE_MAX)
  {
    r := if cap == 0 then INLINE_KEY else cap;
    while r < need
      invariant 0 < r && cap <= r && (cap <= SIZE_MAX ==> r <= SIZE_MAX)
      decreases need - r
    {
      if SIZE_MAX / 2 < r {
        return need;
      }
      r := r * 2;
    }
  }

  // ----- The stack -----

  class PathStack {
    const capacity: nat
    var memory: map<Buffer, bytes>
    var frames: seq<Frame>
    var segments: seq<Slice>
    var pathDepth: nat
    var nextBlock: nat

    ghost predicate Valid()
      reads this
      ensures Valid() ==> pathDepth <= |segments| && forall i :: 0 <= i < pathDepth ==> Readable(memory, segments[i])
    {
      && |frames| == capacity
      && Framed(memory, frames, nextBlock)
      && Segmented(memory, frames, segments, pathDepth)
      && (SegmentsReadable(memory, frames, segments, pathDepth); true)
    }

    function Path(): (r: seq<bytes>)
      requires Valid()
      reads this
      ensures |r| == pathDepth
    {
      PathOf(memory, segments, pathDepth)
    }

    /** The entry counters of the open containers. */
    ghost function Indices(): (r: seq<nat>)
      requires Valid()
      reads this
      ensures |r| == pathDepth
    {
      var fs := frames;
      seq<nat>(pathDepth, i requires 0 <= i < |fs| => fs[i].nextIndex)
    }

    /** The key collected for the next segment. */
    ghost function Key(): bytes
      requires Valid()
      reads this
    {
      if pathDepth < capacity then KeyOf(memory, frames[pathDepth]) else []
    }

    /** The entry counter of the container whose entries come next. */
    ghost function Index(): nat
      requires Valid()
      reads this
    {
      if pathDepth < capacity then frames[pathDepth].nextIndex else 0
    }

    /** The segments spell `path`, and the containers they lead through have
        counted `indices` entries. */
    ghost predicate Spells(path: seq<bytes>, indices: seq<nat>)
      reads this
    {
      Valid() && Path() == path && Indices() == indices
    }

    lemma DepthWithinCapacity(path: seq<bytes>, indices: seq<nat>)
      requires Spells(path, indices)
      ensures |path| <= capacity
    {
    }

    /** The key collected so far, if there is a frame for it; `key` means nothing
        while no key is read. */
    ghost predicate Keyed(isKey: bool, key: bytes)
      reads this
    {
      isKey ==> Valid() && (pathDepth < capacity ==> frames[pathDepth].hasKey && Key() == key)
    }

    ghost predicate Counted(index: nat)
      reads this
    {
      Valid() && (pathDepth < capacity ==> Index() == index)
    }

    constructor (maxDepth: nat)
      requires DepthIsAllocatable(maxDepth)
      ensures Valid() && Path() == [] && Indices() == [] && capacity == PathCapacity(maxDepth)
    {
      CapacityIsAllocatedExactly(maxDepth);
      var n := Allocated(PathCapacity(maxDepth), FRAME_SIZE);
      capacity := PathCapacity(maxDepth);
      memory := (map i: nat | i < n :: InlineKey(i) := seq(INLINE_KEY, _ => 0))
              + (map i: nat | i < n :: IndexText(i) := seq(INDEX_TEXT, _ => 0));
      frames := seq(n, _ => Frame(false, Block(0), 0, 0, false, 0));
      segments := seq(Allocated(PathCapacity(maxDepth), SEGMENT_SIZE), _ => Slice(Block(0), 0));
      pathDepth, nextBlock := 0, 0;
    }

    method BeginKey()
      requires Valid()
      modifies this`memory, this`frames
      ensures Valid() && Path() == old(Path()) && Indices() == old(Indices()) && Index() == old(Index())
      ensures Key() == [] && (pathDepth < capacity ==> frames[pathDepth].hasKey)
    {
      if pathDepth < capacity {
        ghost var m, fs := memory, frames;
        assert FrameOk(memory, frames, nextBlock, pathDepth);
        var f := frames[pathDepth].(keyLen := 0);
        if !f.hasKey {
          f := f.(hasKey := true, key := InlineKey(pathDepth), keyCap := INLINE_KEY, keyHeap := false);
        }
        frames := frames[pathDepth := f];
        memory := memory[f.key := Write(memory[f.key], 0, [0])];
        FrameChangeKeeps(m, fs, nextBlock, memory, nextBlock, pathDepth, f);
        FrameChangePath(m, fs, nextBlock, memory, nextBlock, pathDepth, f, segments);
      }
    }

    /** Gives the current frame a key buffer when it has none. */
    method GiveKey()
      requires Valid() && pathDepth < capacity
      modifies this`frames
      ensures Valid() && Path() == old(Path()) && Indices() == old(Indices()) && Index() == old(Index()) && Key() == old(Key())
      ensures frames[pathDepth].hasKey && frames[pathDepth].keyLen == old(frames[pathDepth].keyLen)
    {
      hide Framed, Segmented, FrameChange;
      if !frames[pathDepth].hasKey {
        ghost var fs := frames;
        InlineKeyChanges(memory, frames, nextBlock, pathDepth);
        FramedAt(memory, frames, nextBlock, pathDepth);
        var f := frames[pathDepth].(hasKey := true, key := InlineKey(pathDepth), keyCap := INLINE_KEY);
        frames := frames[pathDepth := f];
        FrameChangeKeeps(memory, fs, nextBlock, memory, nextBlock, pathDepth, f);
        FrameChangePath(memory, fs, nextBlock, memory, nextBlock, pathDepth, f, segments);
      }
    }

    /** Moves the key to a larger block when its buffer does not hold `need` bytes. */
    method MakeRoom(need: nat)
      requires Valid() && pathDepth < capacity && need <= SIZE_MAX && frames[pathDepth].hasKey
      modifies this`memory, this`frames, this`nextBlock
      ensures Valid() && Path() == old(Path()) && Indices() == old(Indices()) && Index() == old(Index()) && Key() == old(Key())
      ensures frames[pathDepth].hasKey && frames[pathDepth].keyLen == old(frames[pathDepth].keyLen)
      ensures need <= frames[pathDepth].keyCap
    {
      hide Framed, Segmented, FrameChange;
      FramedAt(memory, frames, nextBlock, pathDepth);
      if need <= frames[pathDepth].keyCap {
        return;
      }
      ghost var m, fs, nb := memory, frames, nextBlock;
      var f := frames[pathDepth];
      var newCap := GrowCapacity(f.keyCap, need);
      var buffer := Write(seq(newCap, _ => 0), 0, memory[f.key][..f.keyLen]);
      KeyMoveChanges(m, fs, nb, pathDepth, buffer);
      var next := Block(nextBlock);
      nextBlock := nextBlock + 1;
      memory := memory[next := buffer];
      if f.keyHeap {
        memory := memory - {f.key};
      }
      f := f.(key := next, keyCap := newCap, keyHeap := true);
      frames := frames[pathDepth := f];
      FrameChangeKeeps(m, fs, nb, memory, nextBlock, pathDepth, f);
      FrameChangePath(m, fs, nb, memory, nextBlock, pathDepth, f, segments);
    }

    /** Writes `data` and a terminator after the key's bytes. */
    method WriteKey(data: bytes)
      requires Valid() && pathDepth < capacity && frames[pathDepth].hasKey
      requires frames[pathDepth].keyLen + |data| < frames[pathDepth].keyCap
      modifies this`memory, this`frames
      ensures Valid() && Path() == old(Path()) && Indices() == old(Indices()) && Index() == old(Index())
      ensures Key() == old(Key()) + data && frames[pathDepth].hasKey
    {
      hide Framed, Segmented, FrameChange, Write;
      FramedAt(memory, frames, nextBlock, pathDepth);
      ghost var m, fs := memory, frames;
      var f := frames[pathDepth];
      var newLen := f.keyLen + |data|;
      var buffer := Write(Write(memory[f.key], f.keyLen, data), newLen, [0]);
      KeyWriteChanges(m, fs, nextBlock, pathDepth, newLen, buffer);
      KeyWritten(memory[f.key], f.keyLen, data, buffer);
      memory := memory[f.key := buffer];
      f := f.(keyLen := newLen);
      frames := frames[pathDepth := f];
      FrameChangeKeeps(m, fs, nextBlock, memory, nextBlock, pathDepth, f);
      FrameChangePath(m, fs, nextBlock, memory, nextBlock, pathDepth, f, segments);
    }

    /** Appends decoded bytes to the key. */
    method KeyAppend(data: bytes) returns (status: Status)
      requires Valid() && (pathDepth < capacity ==> |Key()| + |data| < SIZE_MAX)
      modifies this`memory, this`frames, this`nextBlock
      ensures status == Ok && Valid() && Path() == old(Path()) && Indices() == old(Indices()) && Index() == old(Index())
      ensures pathDepth < capacity ==> Key() == old(Key()) + data
      ensures pathDepth < capacity && old(frames[pathDepth].hasKey) ==> frames[pathDepth].hasKey
    {
      hide Framed, Segmented;
      if |data| == 0 || capacity <= pathDepth {
        assert Key() + [] == Key();
        return Ok;
      }
      FramedAt(memory, frames, nextBlock, pathDepth);
      GiveKey();
      if SIZE_MAX - frames[pathDepth].keyLen - 1 < |data| {
        return Overflow;
      }
      MakeRoom(frames[pathDepth].keyLen + |data| + 1);
      WriteKey(data);
      status := Ok;
    }

    method StartArray()
      requires Valid()
      modifies this`frames
      ensures Valid() && Path() == old(Path()) && Indices() == old(Indices())
      ensures Index() == 0
    {
      if pathDepth < capacity {
        SetIndex(0);
      }
    }

    method SetIndex(n: nat)
      requires Valid() && pathDepth < capacity
      modifies this`frames
      ensures Valid() && Path() == old(Path()) && Indices() == old(Indices())
      ensures Index() == n
    {
      ghost var fs := frames;
      assert FrameOk(memory, frames, nextBlock, pathDepth);
      var f := frames[pathDepth].(nextIndex := n);
      frames := frames[pathDepth := f];
      assert FrameOk(memory, frames, nextBlock, pathDepth);
      FrameChangeKeeps(memory, fs, nextBlock, memory, nextBlock, pathDepth, f);
      FrameChangePath(memory, fs, nextBlock, memory, nextBlock, pathDepth, f, segments);
    }

    method CountEntry()
      requires Valid()
      modifies this`frames
      ensures Valid() && Path() == old(Path()) && Indices() == old(Indices())
      ensures pathDepth < capacity ==> Index() == old(Index()) + 1
    {
      if pathDepth < capacity {
        SetIndex(frames[pathDepth].nextIndex + 1);
      }
    }

    method PushKey() returns (status: Status)
      requires Valid() && (pathDepth < capacity ==> frames[pathDepth].hasKey)
      modifies this`segments, this`pathDepth
      ensures Valid() && (status == Ok <==> old(pathDepth) < capacity)
      ensures status == Ok ==> Path() == old(Path()) + [old(Key())] && Indices() == old(Indices()) + [old(Index())]
      ensures status != Ok ==> status == InternalError && Path() == old(Path()) && Indices() == old(Indices())
    {
      if capacity <= pathDepth {
        return InternalError;
      }
      var f := frames[pathDepth];
      assert FrameOk(memory, frames, nextBlock, pathDepth);
      SegmentPushed(memory, frames, segments, pathDepth, Slice(f.key, f.keyLen));
      segments := segments[pathDepth := Slice(f.key, f.keyLen)];
      pathDepth := pathDepth + 1;
      status := Ok;
    }

    method PushIndex() returns (status: Status)
      requires Valid() && Index() <= SIZE_MAX
      modifies this`memory, this`segments, this`pathDepth
      ensures Valid() && (status == Ok <==> old(pathDepth) < capacity)
      ensures status == Ok ==> Path() == old(Path()) + [Decimal(old(Index()))] && Indices() == old(Indices()) + [old(Index())]
      ensures status != Ok ==> status == InternalError && Path() == old(Path()) && Indices() == old(Indices())
    {
      if capacity <= pathDepth {
        return InternalError;
      }
      ghost var m := memory;
      var f := frames[pathDepth];
      assert FrameOk(memory, frames, nextBlock, pathDepth);
      var n, text := FormatDecimal(memory[IndexText(pathDepth)], f.nextIndex);
      memory := memory[IndexText(pathDepth) := text];
      if INDEX_TEXT <= n {
        return Overflow;
      }
      assert frames[pathDepth := f] == frames;
      FrameChangeKeeps(m, frames, nextBlock, memory, nextBlock, pathDepth, f);
      FrameChangePath(m, frames, nextBlock, memory, nextBlock, pathDepth, f, segments);
      SegmentPushed(memory, frames, segments, pathDepth, Slice(IndexText(pathDepth), n));
      segments := segments[pathDepth := Slice(IndexText(pathDepth), n)];
      pathDepth := pathDepth + 1;
      status := Ok;
    }

    method Pop()
      requires Valid()
      modifies this`pathDepth
      ensures Valid()
      ensures 0 < old(pathDepth) ==> Path() == old(Path())[..old(pathDepth) - 1] && Indices() == old(Indices())[..old(pathDepth) - 1]
                                     && Index() == old(Indices())[old(pathDepth) - 1]
    {
      if pathDepth != 0 {
        pathDepth := pathDepth - 1;
      }
    }

    /** Frees the keys on the heap; none is left. */
    method Close()
      requires Valid()
      modifies this`memory
      ensures forall b: nat :: Block(b) !in memory
    {
      forall b: nat | Block(b) in memory ensures OwnedFrom(frames, 0, b) {
        assert Owned(frames, b);
      }
      var i := 0;
      while i < capacity
        invariant 0 <= i <= capacity
        invariant forall b: nat :: Block(b) in memory ==> OwnedFrom(frames, i, b)
      {
        ghost var m := memory;
        if frames[i].keyHeap {
          memory := memory - {frames[i].key};
        }
        forall b: nat | Block(b) in memory ensures OwnedFrom(frames, i + 1, b) {
          assert Block(b) in m;
        }
        i := i + 1;
      }
    }
  }
}
