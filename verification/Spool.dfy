/** Spooled values: a prefix in memory and the rest in a spill file, which behave
    as one byte sequence. */
module Spools {
  import opened Bytes

  /** The size of the buffer a value is written out through. */
  const CHUNK: nat := 4096

  class Spooled {
    const memoryLimit: nat
    const maxBytes: nat
    var memory: bytes
    var spilled: bool
    var spill: bytes
    var size: nat
    var readOffset: nat

    /** Everything appended, in order. */
    ghost var contents: bytes

    ghost predicate Valid()
      reads this
    {
      && contents == memory + spill && size == |contents| && readOffset <= size
      && |memory| <= memoryLimit && (spilled <==> spill != []) && (spilled ==> |memory| == memoryLimit)
      && (maxBytes != 0 ==> size <= maxBytes) && size <= SIZE_MAX
    }

    constructor (memoryLimit: nat, maxBytes: nat)
      ensures Valid() && contents == [] && readOffset == 0
      ensures this.memoryLimit == memoryLimit && this.maxBytes == maxBytes
    {
      this.memoryLimit, this.maxBytes := memoryLimit, maxBytes;
      memory, spilled, spill, size, readOffset, contents := [], false, [], 0, 0, [];
    }

    /** A copy that shares the bytes and has a read cursor of its own. */
    constructor Copy(other: Spooled)
      requires other.Valid()
      ensures Valid() && contents == other.contents && readOffset == other.readOffset
    {
      memoryLimit, maxBytes := other.memoryLimit, other.maxBytes;
      memory, spilled, spill, size, readOffset := other.memory, other.spilled, other.spill, other.size, other.readOffset;
      contents := other.contents;
    }

    /** How much of an append goes to the prefix. */
    function ToMemory(n: nat): nat
      reads this`memory
    {
      Min(n, if |memory| < memoryLimit then memoryLimit - |memory| else 0)
    }

    /** Fills the prefix first and spills the rest; the read cursor stays. `granted`
        says whether the prefix can be made large enough, `stored` how much of the
        rest the file takes, which fails if that is not all. A file that fails
        leaves bytes in the prefix and the file that the size does not count. */
    method Append(data: bytes, granted: bool, stored: nat) returns (status: Status)
      requires Valid() && size + |data| <= SIZE_MAX
      modifies this
      ensures readOffset == old(readOffset) && (status != IoError ==> Valid())
      ensures status == if data != [] && maxBytes != 0 && maxBytes < old(size) + |data| then Overflow
                        else if old(ToMemory(|data|)) != 0 && !granted then AllocationFailed
                        else if stored < |data| - old(ToMemory(|data|)) then IoError
                        else Ok
      ensures contents == if status == Ok then old(contents) + data else old(contents)
      ensures size == if status == Ok then old(size) + |data| else old(size)
      ensures status == IoError ==>
                && memory == old(memory) + data[..old(ToMemory(|data|))] && |memory| == memoryLimit
                && spill == old(spill) + data[old(ToMemory(|data|))..old(ToMemory(|data|)) + stored]
    {
      if |data| == 0 {
        assert contents + [] == contents;
        return Ok;
      }
      if maxBytes != 0 && maxBytes < size + |data| {
        return Overflow;
      }
      var room := if |memory| < memoryLimit then memoryLimit - |memory| else 0;
      var copy := if |data| < room then |data| else room;
      AppendSplits(memory, spill, data, copy);
      if copy != 0 {
        if !granted {
          return AllocationFailed;
        }
        memory := memory + data[..copy];
      }
      if copy < |data| {
        spilled := true;
        spill := spill + data[copy..Min(|data|, copy + stored)];
        if stored < |data| - copy {
          return IoError;
        }
      }
      size := size + |data|;
      contents := contents + data;
      status := Ok;
    }

    method Rewind()
      requires Valid()
      modifies this`readOffset
      ensures Valid() && readOffset == 0
    {
      readOffset := 0;
    }

    /** The next bytes, from the prefix or from the file; `got` is how many the
        file delivers at a time, at least one while there are any. A read without
        room reports the end of the value and nothing else. */
    method Read(capacity: nat, got: nat) returns (data: bytes, eof: bool)
      requires Valid()
      modifies this`readOffset
      ensures Valid() && |data| <= capacity && readOffset == old(readOffset) + |data| <= size
      ensures data == contents[old(readOffset)..readOffset]
      ensures 0 < capacity ==> (eof <==> readOffset == size) && (old(readOffset) < size ==> data != [])
      ensures capacity == 0 ==> eof
    {
      data := [];
      if capacity == 0 {
        return [], true;
      }
      var remaining := if readOffset < |memory| then |memory| - readOffset else 0;
      var copied := if remaining < capacity then remaining else capacity;
      if copied != 0 {
        data := memory[readOffset..readOffset + copied];
        readOffset := readOffset + copied;
        return data, readOffset == size;
      }
      if spilled {
        var offset := readOffset - |memory|;
        var n := Min(capacity, Min(|spill| - offset, if got == 0 then 1 else got));
        data := spill[offset..offset + n];
        SpillSlice(memory, spill, offset, n);
        readOffset := readOffset + n;
        return data, size <= readOffset;
      }
      eof := true;
    }

    /** Writes the whole value to a sink through a cursor of its own. */
    method WriteToSink(got: nat) returns (out: bytes)
      requires Valid()
      ensures out == contents
    {
      var cursor := new Spooled.Copy(this);
      cursor.Rewind();
      out := [];
      var eof := false;
      while !eof
        invariant cursor.Valid() && cursor.contents == contents && cursor.readOffset <= |contents|
        invariant out == contents[..cursor.readOffset] && (eof ==> cursor.readOffset == |contents|)
        decreases |contents| - cursor.readOffset, if eof then 0 else 1
      {
        ghost var was := cursor.readOffset;
        var chunk;
        chunk, eof := cursor.Read(CHUNK, got);
        out := out + chunk;
        assert contents[..was] + contents[was..cursor.readOffset] == contents[..cursor.readOffset];
      }
    }
  }

  lemma AppendSplits(memory: bytes, spill: bytes, data: bytes, copy: nat)
    requires copy <= |data| && (spill != [] ==> copy == 0)
    ensures memory + spill + data == memory + data[..copy] + (spill + data[copy..])
  {
    assert data == data[..copy] + data[copy..];
    assert memory + spill + data == memory + (spill + data);
    if spill == [] {
      assert spill + data == data[..copy] + data[copy..];
    } else {
      assert data[..copy] == [] && data[copy..] == data;
    }
  }

  lemma SpillSlice(memory: bytes, spill: bytes, offset: nat, n: nat)
    requires offset + n <= |spill|
    ensures (memory + spill)[|memory| + offset..|memory| + offset + n] == spill[offset..offset + n]
  {
  }
}
