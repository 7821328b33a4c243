/** The byte cursor all three JSON passes read through: an in-memory buffer or a
    reader that delivers chunks into a read buffer, one pushback slot, and the
    byte counters. Whatever the chunks, it reads the same text. */
module Cursors {
  import opened Bytes
  import opened Scanner
  import opened Grammar

  const EOF: int := -1
  const FAILED: int := -2

  /** The character code that stands for the outcome of a read. */
  ghost function Code(r: Read): int {
    match r
    case Byte(b) => b
    case AtEnd => EOF
    case OverLimit => FAILED
  }

  /** The length of the plain bytes a span starts with. */
  method PlainPrefix(span: bytes) returns (k: nat)
    ensures k <= |span| && (forall i :: 0 <= i < k ==> IsPlain(span[i]))
    ensures k < |span| ==> !IsPlain(span[k])
  {
    k := 0;
    while k < |span| && !(span[k] == QUOTE || span[k] == BACKSLASH || span[k] < 0x20)
      invariant k <= |span| && (forall i :: 0 <= i < k ==> IsPlain(span[i]))
    {
      k := k + 1;
    }
  }

  class Cursor {
    ghost const text: bytes
    ghost const counted: bool
    const maxTotal: nat
    const inMemory: bool
    const buffer: bytes
    var bufferOff: nat
    var pending: seq<bytes>
    var readBuffer: bytes
    var readOff: nat
    var streamOffset: nat
    var hasPushback: bool
    var pushbackCounted: bool
    var lastGetcCounted: bool
    var pushback: int
    var totalBytes: nat
    var leftHas: bool
    var leftByte: int
    var leftOffset: nat

    /** The bytes fetched from the source. */
    ghost function Fetched(): nat
      reads this`bufferOff, this`readBuffer, this`readOff, this`streamOffset
    {
      if inMemory then bufferOff
      else if |readBuffer| <= streamOffset + readOff then streamOffset + readOff - |readBuffer|
      else 0
    }

    ghost function Pos(): nat
      reads this`bufferOff, this`readBuffer, this`readOff, this`streamOffset, this`hasPushback
    {
      if hasPushback && 0 < Fetched() then Fetched() - 1 else Fetched()
    }

    ghost predicate SourceValid()
      reads this`bufferOff, this`readBuffer, this`readOff, this`streamOffset, this`pending
      ensures SourceValid() ==> 0 <= Fetched() <= |text|
    {
      && |text| <= SIZE_MAX
      && (if inMemory then
            buffer == text && bufferOff <= |text| && readBuffer == [] && readOff == 0
          else
            && readOff <= |readBuffer| <= streamOffset <= |text|
            && readBuffer == text[streamOffset - |readBuffer|..streamOffset]
            && text[streamOffset..] == Concat(pending)
            && (forall i :: 0 <= i < |pending| ==> pending[i] != []))
    }

    /** A byte in the pushback slot is the last one fetched. */
    ghost predicate Sound()
      reads this
      ensures Sound() ==> SourceValid()
    {
      SourceValid() && (hasPushback ==> 0 < Fetched() && pushback == text[Fetched() - 1] && pushbackCounted)
    }

    /** Sound, with the byte count `k` ahead of the position. Passes that do not
        count every byte have no total limit. */
    ghost predicate ValidAhead(k: nat)
      reads this
      ensures ValidAhead(k) ==> Sound()
    {
      Sound() && if counted then totalBytes == Pos() + k else maxTotal == 0
    }

    ghost predicate Valid()
      reads this
      ensures Valid() ==> Sound() && 0 <= Pos() <= |text|
    {
      ValidAhead(0)
    }

    ghost predicate CanUnget()
      reads this
      ensures CanUnget() ==> 0 < Pos()
    {
      !hasPushback && lastGetcCounted && 0 < Fetched()
    }

    constructor OpenBuffer(data: bytes, maxTotal: nat, ghost counted: bool)
      requires |data| <= SIZE_MAX && (counted || maxTotal == 0)
      ensures Valid() && Pos() == 0 && !hasPushback
      ensures text == data && this.maxTotal == maxTotal && this.counted == counted && inMemory
    {
      text, this.counted, this.maxTotal := data, counted, maxTotal;
      inMemory, buffer, bufferOff := true, data, 0;
      pending, readBuffer, readOff, streamOffset := [], [], 0, 0;
      hasPushback, pushbackCounted, lastGetcCounted, pushback, totalBytes := false, false, false, 0, 0;
      leftHas, leftByte, leftOffset := false, 0, 0;
    }

    constructor OpenReader(chunks: seq<bytes>, maxTotal: nat, ghost counted: bool)
      requires |Concat(chunks)| <= SIZE_MAX && (counted || maxTotal == 0)
      requires forall i :: 0 <= i < |chunks| ==> chunks[i] != []
      ensures Valid() && Pos() == 0 && !hasPushback
      ensures text == Concat(chunks) && this.maxTotal == maxTotal && this.counted == counted && !inMemory
    {
      text, this.counted, this.maxTotal := Concat(chunks), counted, maxTotal;
      inMemory, buffer, bufferOff := false, [], 0;
      pending, readBuffer, readOff, streamOffset := chunks, [], 0, 0;
      hasPushback, pushbackCounted, lastGetcCounted, pushback, totalBytes := false, false, false, 0, 0;
      leftHas, leftByte, leftOffset := false, 0, 0;
    }

    /** The offset of the next byte the source delivers; no valid cursor reaches
        the last branch. */
    function NextOffset(): (r: nat)
      reads this
      ensures SourceValid() ==> r == Fetched()
    {
      if inMemory then bufferOff
      else if |readBuffer| - readOff <= streamOffset then streamOffset - (|readBuffer| - readOff)
      else 0
    }

    function LastOffset(): (r: nat)
      reads this
      ensures SourceValid() && 0 < Fetched() ==> r == Fetched() - 1
    {
      if NextOffset() == 0 then 0 else NextOffset() - 1
    }

    predicate OverTotal()
      reads this
    {
      maxTotal != 0 && maxTotal < totalBytes
    }

    method Refill() returns (ch: int)
      requires SourceValid() && !inMemory && readOff == |readBuffer| && !hasPushback
      modifies this`readBuffer, this`readOff, this`streamOffset, this`pending
      ensures SourceValid()
      ensures if old(Fetched()) < |text| then ch == text[old(Fetched())] && Fetched() == old(Fetched()) + 1
              else ch == EOF && Fetched() == old(Fetched())
    {
      if pending == [] {
        return EOF;
      }
      var chunk := pending[0];
      assert text[streamOffset..] == chunk + Concat(pending[1..]);
      assert text[streamOffset..streamOffset + |chunk|] == chunk by {
        assert text[streamOffset..][..|chunk|] == chunk;
      }
      assert text[streamOffset + |chunk|..] == Concat(pending[1..]) by {
        assert text[streamOffset..][|chunk|..] == Concat(pending[1..]);
      }
      pending := pending[1..];
      readBuffer, readOff := chunk, 0;
      if SIZE_MAX - |chunk| < streamOffset {
        return FAILED;
      }
      streamOffset := streamOffset + |chunk|;
      ch := readBuffer[readOff];
      readOff := readOff + 1;
    }

    /** The next byte of the source, past the pushback slot. */
    method Fetch() returns (ch: int)
      requires SourceValid() && !hasPushback
      modifies this`bufferOff, this`readBuffer, this`readOff, this`streamOffset, this`pending
      ensures SourceValid()
      ensures if old(Fetched()) < |text| then ch == text[old(Fetched())] && Fetched() == old(Fetched()) + 1
              else ch == EOF && Fetched() == old(Fetched())
    {
      if inMemory {
        if |buffer| <= bufferOff {
          return EOF;
        }
        ch := buffer[bufferOff];
        bufferOff := bufferOff + 1;
      } else if readOff < |readBuffer| {
        ch := readBuffer[readOff];
        readOff := readOff + 1;
      } else {
        ch := Refill();
      }
    }

    method Getc() returns (ch: int)
      requires Valid()
      modifies this
      ensures Valid() && 0 <= old(Pos()) && Pos() <= |text|
      ensures ch == Code(ReadAt(text, old(Pos()), maxTotal))
      ensures if ch == EOF then Pos() == old(Pos()) && !hasPushback else Pos() == old(Pos()) + 1 && CanUnget()
    {
      hide SourceValid;
      if hasPushback {
        hasPushback := false;
        lastGetcCounted := pushbackCounted;
        if pushbackCounted {
          pushbackCounted := false;
          totalBytes := totalBytes + 1;
          if OverTotal() {
            return FAILED;
          }
        }
        return pushback;
      }
      ch := Fetch();
      if ch < 0 {
        return;
      }
      lastGetcCounted := true;
      totalBytes := totalBytes + 1;
      if OverTotal() {
        return FAILED;
      }
    }

    /** The check of the total limit after a lookahead. */
    method CheckTotal() returns (over: bool)
      requires Valid()
      ensures over <==> maxTotal != 0 && maxTotal < Pos()
    {
      hide SourceValid, Pos;
      over := OverTotal();
    }

    /** Hands a byte still pushed back to the next pass over this cursor. */
    method LeavePushback()
      requires Sound()
      modifies this`leftHas, this`leftByte, this`leftOffset
      ensures Sound() && (old(Valid()) ==> Valid())
      ensures leftHas == hasPushback
      ensures leftHas ==> leftOffset < |text| && leftByte == text[leftOffset] && leftOffset + 1 == Fetched()
    {
      leftHas := hasPushback;
      if hasPushback {
        leftByte := pushback;
        leftOffset := LastOffset();
      }
    }

    /** As `Getc`, without the check of the total limit. */
    method GetcLookahead() returns (ch: int)
      requires Valid()
      modifies this
      ensures Valid() && 0 <= old(Pos()) && Pos() <= |text|
      ensures ch == Code(ReadAt(text, old(Pos()), 0))
      ensures 0 <= ch ==> Pos() == old(Pos()) + 1 && CanUnget()
      ensures ch == EOF ==> Pos() == old(Pos()) && !hasPushback
    {
      hide SourceValid;
      if hasPushback {
        hasPushback := false;
        lastGetcCounted := pushbackCounted;
        if pushbackCounted {
          pushbackCounted := false;
          totalBytes := totalBytes + 1;
        }
        return pushback;
      }
      ch := Fetch();
      if ch < 0 {
        return;
      }
      lastGetcCounted := true;
      totalBytes := totalBytes + 1;
    }

    method Ungetc(ch: int)
      requires Valid() && CanUnget() && ch == text[Pos() - 1]
      modifies this
      ensures Valid() && hasPushback && Pos() == old(Pos()) - 1
    {
      hide SourceValid;
      hasPushback := true;
      pushbackCounted := lastGetcCounted;
      if lastGetcCounted && totalBytes != 0 {
        totalBytes := totalBytes - 1;
      }
      lastGetcCounted := false;
      pushback := ch;
    }

    /** Leaves the next byte that is not whitespace in the pushback slot. */
    method PeekNonspace() returns (ch: int)
      requires Valid()
      modifies this
      ensures Valid() && 0 <= old(Pos()) && Pos() <= |text|
      ensures ch == Code(ReadAt(text, SkipSpace(text, old(Pos()), maxTotal), maxTotal))
      ensures 0 <= ch ==> Pos() == SkipSpace(text, old(Pos()), maxTotal) && hasPushback
      ensures ch == EOF ==> Pos() == |text| && !hasPushback
    {
      hide ValidAhead, SourceValid;
      ghost var start := Pos();
      ch := Getc();
      while 0 <= ch && IsSpace(ch)
        invariant Valid() && Pos() <= |text|
        invariant 0 <= ch ==> start < Pos() && CanUnget() && Code(ReadAt(text, Pos() - 1, maxTotal)) == ch
                              && SkipSpace(text, start, maxTotal) == SkipSpace(text, Pos() - 1, maxTotal)
        invariant ch < 0 ==> ch == Code(ReadAt(text, SkipSpace(text, start, maxTotal), maxTotal))
        invariant ch == EOF ==> Pos() == |text| && !hasPushback
        decreases |text| - Pos(), if ch < 0 then 0 else 1
      {
        ghost var p := Pos();
        ch := Getc();
        assert SkipSpace(text, p - 1, maxTotal) == SkipSpace(text, p, maxTotal);
      }
      if 0 <= ch {
        Ungetc(ch);
      }
    }

    /** `span` is the text at the position, and at hand without another read. */
    ghost predicate SpanHere(span: bytes)
      reads this`bufferOff, this`readBuffer, this`readOff, this`streamOffset, this`hasPushback
    {
      && 0 <= Pos() && Pos() + |span| <= |text| && span == text[Pos()..Pos() + |span|]
      && (span != [] ==> !hasPushback && SpanAvailable(|span|))
    }

    /** The bytes at hand without another read, none while a byte is pushed back. */
    method PlainSpan() returns (span: bytes)
      requires Valid()
      ensures SpanHere(span)
    {
      if hasPushback {
        return [];
      }
      if inMemory && bufferOff < |buffer| {
        return buffer[bufferOff..];
      }
      if readOff < |readBuffer| {
        return readBuffer[readOff..];
      }
      return [];
    }

    predicate SpanAvailable(k: nat)
      reads this`bufferOff, this`readBuffer, this`readOff
    {
      if inMemory then bufferOff + k <= |buffer| else readOff + k <= |readBuffer|
    }

    /** Counts `len` bytes of a span before they are passed on. */
    method CountSpan(len: nat) returns (ok: bool)
      requires Valid() && counted
      modifies this`totalBytes
      ensures ok <==> !Exceeds(maxTotal, Pos() + len)
      ensures ok ==> ValidAhead(len)
      ensures !ok ==> Valid()
    {
      hide SourceValid, Pos;
      if maxTotal != 0 && maxTotal < totalBytes + len {
        return false;
      }
      totalBytes := totalBytes + len;
      return true;
    }

    /** Steps over `len` bytes of a span. */
    method AdvanceSpan(len: nat)
      requires !hasPushback && SpanAvailable(len)
      requires ValidAhead(if counted then len else 0)
      modifies this`bufferOff, this`readOff
      ensures Valid() && !hasPushback && Pos() == old(Pos()) + len
    {
      if inMemory {
        bufferOff := bufferOff + len;
        assert SourceValid();
      } else {
        readOff := readOff + len;
        assert SourceValid();
      }
      hide SourceValid;
    }
  }

  lemma SpanShorter(cursor: Cursor, n: nat, k: nat)
    requires cursor.SpanAvailable(n) && k <= n
    ensures cursor.SpanAvailable(k)
  {
  }

  /** A pass that does not count span bytes is never ahead. */
  lemma UncountedAhead(cursor: Cursor)
    requires cursor.Valid() && !cursor.counted
    ensures cursor.ValidAhead(0)
  {
  }
}
