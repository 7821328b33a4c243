/** A JSON value handle that owns a compact text: storing a buffer into it is all
    or nothing. */
module JsonValues {
  import opened Bytes
  import opened Scanner
  import opened Grammar
  import opened GrammarProofs
  import opened Cursors
  import opened Rewriting
  import opened Transcoders

  /** A pointer to a text, which may be missing, and its length. */
  datatype Source = NoBuffer(length: nat) | Buffer(data: bytes)

  datatype ValueKind = NullKind | BufferKind

  class JsonValue {
    var kind: ValueKind
    var storage: bytes
    var len: nat
    var limits: Limits
    var runtimeLimits: Limits
    var followRuntime: bool

    /** What is stored fits its block together with a terminator. */
    ghost predicate Valid()
      reads this
    {
      && len <= |storage| <= SIZE_MAX
      && (len != 0 ==> len < |storage| && storage[len] == 0)
    }

    function Contents(): (r: bytes)
      requires Valid()
      reads this
      ensures |r| == len
    {
      storage[..len]
    }

    constructor (limits: Limits, runtimeLimits: Limits, followRuntime: bool)
      ensures Valid() && kind == NullKind && Contents() == [] && storage == []
      ensures this.limits == limits && this.runtimeLimits == runtimeLimits && this.followRuntime == followRuntime
    {
      kind, storage, len := NullKind, [], 0;
      this.limits, this.runtimeLimits, this.followRuntime := limits, runtimeLimits, followRuntime;
    }

    /** The capacity for `required` bytes: doubled, or exactly enough once
        doubling would wrap. */
    static method Capacity(capacity: nat, required: nat) returns (r: nat)
      requires capacity < required <= SIZE_MAX
      ensures required <= r <= SIZE_MAX
    {
      r := if capacity != 0 then capacity else 64;
      while r < required
        invariant 0 < r <= SIZE_MAX
        decreases required - r
      {
        var doubled := r * 2 % (SIZE_MAX + 1);
        if doubled <= r {
          return required;
        }
        DoublingGrows(r);
        r := doubled;
      }
    }

    /** The sink that appends to a value, growing its block when it must. */
    method Append(data: bytes, granted: bool) returns (status: Status)
      requires Valid() && len + |data| < SIZE_MAX
      modifies this`storage, this`len
      ensures Valid()
      ensures status == if granted || data == [] || old(len) + |data| + 1 <= |old(storage)| then Ok else AllocationFailed
      ensures if status == Ok then Contents() == old(Contents()) + data else Contents() == old(Contents())
    {
      status := Ok;
      if |data| == 0 {
        assert Contents() + [] == Contents();
        return;
      }
      var required := len + |data| + 1;
      if |storage| < required {
        var cap := Capacity(|storage|, required);
        if !granted {
          return AllocationFailed;
        }
        storage := storage + seq(cap - |storage|, _ => 0);
      }
      assert storage[..len] == old(storage[..len]);
      storage := storage[..len] + data + [0] + storage[required..];
      len := len + |data|;
    }

    /** Stores the compact form of a text: on failure nothing changes, on success
        the whole content does and the limits stay. A missing buffer is refused,
        unless its length is zero: such a call passes the check and reads from a
        file that was never opened. */
    method SetBuffer(source: Source, granted: bool) returns (status: Status)
      requires Valid() && (if source.NoBuffer? then source.length != 0 else |source.data| < SIZE_MAX)
      modifies this
      ensures Valid()
      ensures limits == old(limits) && runtimeLimits == old(runtimeLimits) && followRuntime == old(followRuntime)
      ensures source.NoBuffer? ==> status == InvalidArgument
      ensures source.Buffer? ==>
                (status == Ok <==> granted && exists doc :: DocumentAccepted(source.data, TranscodeRules(false, 0), doc))
      ensures source.Buffer? && status != Ok && status != AllocationFailed ==> Fails(ScanDocument(source.data, TranscodeRules(false, 0)), status)
      ensures status == Ok ==> kind == BufferKind && Contents() == Strip(source.data, Outside)
      ensures status == Ok ==> Transcoded(source.data, false, 0, Ok, Contents())
      ensures status != Ok ==> kind == old(kind) && storage == old(storage) && len == old(len)
    {
      hide Transcoded, Strip, DocumentAccepted, ScanDocument, TranscodeRules, Cursor.Valid, Cursor.Pos;
      if source.NoBuffer? {
        return InvalidArgument;
      }
      var data := source.data;
      var input := new Cursor.OpenBuffer(data, 0, false);
      var compact := new JsonValue(limits, runtimeLimits, followRuntime);
      var out;
      status, out := TranscodeCursor(input, false, 0);
      TranscodedStatus(data, status, out);
      if status != Ok {
        return;
      }
      CompactDeletesOnlyWhitespace(data, 0, out);
      StripShortens(data, Outside);
      CompactIsNotEmpty(data, out);
      status := compact.Append(out, granted);
      if status != Ok {
        return;
      }
      assert [] + out == out;
      kind, storage, len := BufferKind, compact.storage, compact.len;
    }
  }

  lemma DoublingGrows(r: nat)
    requires 0 < r <= SIZE_MAX && r < r * 2 % (SIZE_MAX + 1)
    ensures r * 2 % (SIZE_MAX + 1) == r * 2
  {
  }

  lemma TranscodedStatus(text: bytes, status: Status, out: bytes)
    requires Transcoded(text, false, 0, status, out)
    ensures status == Ok <==> exists doc :: DocumentAccepted(text, TranscodeRules(false, 0), doc)
    ensures status != Ok ==> Fails(ScanDocument(text, TranscodeRules(false, 0)), status)
  {
    hide DocumentAccepted, ScanDocument, OutputText;
  }

  lemma CompactIsNotEmpty(text: bytes, out: bytes)
    requires Transcoded(text, false, 0, Ok, out)
    ensures out != []
  {
    hide ScanDocument, NodeWithin, NodeText, Relayout, NodeWellFormed, DocumentText;
    var doc :| DocumentAccepted(text, TranscodeRules(false, 0), doc);
    RelayoutWellFormed(doc.value, false, 0);
    NodeHead(Relayout(doc.value, false, 0));
  }

  lemma {:induction false} StripShortens(s: bytes, m: Mode)
    ensures |Strip(s, m)| <= |s|
  {
    if s != [] {
      StripShortens(s[1..], Step(m, s[0]));
    }
  }

  /** What a value holds is stored again unchanged. */
  lemma StoredTextIsStable(data: bytes, status: Status, out: bytes, out': bytes)
    requires Transcoded(data, false, 0, Ok, out) && Transcoded(out, false, 0, status, out')
    ensures status == Ok && out' == out && Strip(out, Outside) == out
  {
    hide Transcoded, Strip;
    CompactIsIdempotent(data, 0, out, 0, status, out');
    CompactDeletesOnlyWhitespace(out, 0, out');
  }
}
