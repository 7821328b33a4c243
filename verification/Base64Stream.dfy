/** A base64 field decoded as its bytes arrive: whole quartets are decoded at
    once by the one-shot decoder, the rest waits. Whatever the chunks, the field
    is accepted exactly when the one-shot decoder accepts it, with the same
    bytes. */
module Base64Stream {
  import opened Bytes
  import opened Base64
  import opened Base64Codec

  /** `fed` is a text of whole quartets decoded into `out`, and `quad` after it. */
  ghost predicate Streaming(fed: bytes, quad: bytes, sawPadding: bool, out: bytes) {
    var k, w := BodyLength(fed), |fed| - |quad|;
    && |quad| <= |fed| && w % 4 == 0 && fed[w..] == quad
    && AllInAlphabet(fed[..k], Standard) && AllPad(fed[k..]) && (sawPadding <==> k < |fed|)
    && WellFormed(fed[..w], Standard) && out == Decode(fed[..w], Standard)
  }

  /** No continuation of the text is well formed. */
  ghost predicate Doomed(s: bytes) {
    forall t: bytes :: !WellFormed(s + t, Standard)
  }

  lemma StreamingStarts()
    ensures Streaming([], [], false, [])
  {
  }

  lemma PaddingEnds(s: bytes, i: nat, j: nat)
    requires i < j < |s| && s[i] == PAD && s[j] != PAD
    ensures !WellFormed(s, Standard)
  {
    if WellFormed(s, Standard) {
      WellFormedAt(s, Standard, i);
      WellFormedAt(s, Standard, j);
    }
  }

  lemma PaddingDooms(fed: bytes, ch: byte)
    requires BodyLength(fed) < |fed| && ch != PAD
    ensures Doomed(fed + [ch])
  {
    forall t: bytes ensures !WellFormed(fed + [ch] + t, Standard) {
      PaddingEnds(fed + [ch] + t, BodyLength(fed), |fed|);
    }
  }

  lemma BadLetterDooms(fed: bytes, ch: byte)
    requires ch != PAD && !InAlphabet(ch, Standard)
    ensures Doomed(fed + [ch])
  {
    forall t: bytes ensures !WellFormed(fed + [ch] + t, Standard) {
      var s := fed + [ch] + t;
      if WellFormed(s, Standard) {
        WellFormedAt(s, Standard, |fed|);
      }
    }
  }

  lemma AlphabetMore(s: bytes, ch: byte)
    requires AllInAlphabet(s, Standard) && InAlphabet(ch, Standard)
    ensures AllInAlphabet(s + [ch], Standard)
  {
    hide InAlphabet;
  }

  lemma PadMore(s: bytes)
    requires AllPad(s)
    ensures AllPad(s + [PAD])
  {
  }

  /** The body of a text after one more character. */
  lemma BodyMore(fed: bytes, ch: byte)
    requires AllInAlphabet(fed[..BodyLength(fed)], Standard) && AllPad(fed[BodyLength(fed)..])
    requires ch == PAD || (InAlphabet(ch, Standard) && BodyLength(fed) == |fed|)
    ensures var s := fed + [ch];
            && BodyLength(s) == (if ch == PAD then BodyLength(fed) else |fed| + 1)
            && AllInAlphabet(s[..BodyLength(s)], Standard) && AllPad(s[BodyLength(s)..])
  {
    hide BodyLength, InAlphabet, AllInAlphabet, AllPad;
    if ch == PAD {
      BodyMorePad(fed);
    } else {
      BodyMoreLetter(fed, ch);
    }
  }

  lemma BodyMorePad(fed: bytes)
    requires AllPad(fed[BodyLength(fed)..])
    ensures var s, k := fed + [PAD], BodyLength(fed);
            BodyLength(s) == k && s[..k] == fed[..k] && AllPad(s[k..])
  {
    hide BodyLength, AllPad;
    var s, k := fed + [PAD], BodyLength(fed);
    BodyLengthIs(s, k);
    PadMore(fed[k..]);
    assert s[k..] == fed[k..] + [PAD];
  }

  lemma BodyMoreLetter(fed: bytes, ch: byte)
    requires BodyLength(fed) == |fed| && AllInAlphabet(fed[..|fed|], Standard) && InAlphabet(ch, Standard)
    ensures var s := fed + [ch];
            BodyLength(s) == |s| && AllInAlphabet(s[..|s|], Standard) && AllPad(s[|s|..])
  {
    hide BodyLength, InAlphabet, AllInAlphabet;
    var s := fed + [ch];
    LetterNotPad(ch);
    BodyLengthIs(s, |s|);
    AlphabetMore(fed[..|fed|], ch);
    assert s[..|s|] == fed[..|fed|] + [ch];
  }

  lemma LetterNotPad(ch: byte)
    requires InAlphabet(ch, Standard)
    ensures ch != PAD
  {
  }

  /** A character joins the incomplete quartet. */
  lemma StreamingJoins(fed: bytes, quad: bytes, sawPadding: bool, out: bytes, ch: byte)
    requires Streaming(fed, quad, sawPadding, out)
    requires ch == PAD || (InAlphabet(ch, Standard) && !sawPadding)
    ensures Streaming(fed + [ch], quad + [ch], sawPadding || ch == PAD, out)
  {
    hide WellFormed, Decode, BodyLength, InAlphabet;
    BodyMore(fed, ch);
    var w := |fed| - |quad|;
    assert (fed + [ch])[..w] == fed[..w] && (fed + [ch])[w..] == fed[w..] + [ch];
  }

  /** Four characters `quad` after whole quartets `whole`. */
  lemma WholeAndQuad(whole: bytes, quad: bytes, t: bytes)
    requires |whole| % 4 == 0 && |quad| == 4 && WellFormed(whole + quad + t, Standard)
    ensures WellFormed(quad, Standard)
  {
    hide BodyLength, InAlphabet;
    var s, w := whole + quad + t, |whole|;
    var k := BodyLength(s);
    ThreeParts(|whole|, |t|, |s|, k);
    var m := Min(k - w, 4);
    forall i | 0 <= i < m ensures quad[i] != PAD && InAlphabet(quad[i], Standard) {
      assert quad[i] == s[w + i];
      WellFormedAt(s, Standard, w + i);
    }
    forall i | m <= i < 4 ensures quad[i] == PAD {
      assert quad[i] == s[w + i];
      WellFormedAt(s, Standard, w + i);
    }
    BodyLengthIs(quad, m);
  }

  lemma ThreeParts(w: nat, t: nat, n: nat, k: nat)
    requires w % 4 == 0 && n % 4 == 0 && n == w + 4 + t && k <= n <= k + 2
    ensures w + 2 <= k && (0 < t ==> w + 4 <= k)
  {
  }

  lemma BadQuadDooms(fed: bytes, quad: bytes)
    requires |quad| == 4 <= |fed| && |fed| % 4 == 0 && fed[|fed| - 4..] == quad && !WellFormed(quad, Standard)
    ensures Doomed(fed)
  {
    hide WellFormed;
    var whole := fed[..|fed| - 4];
    assert fed == whole + quad;
    forall t: bytes ensures !WellFormed(fed + t, Standard) {
      if WellFormed(fed + t, Standard) {
        WholeAndQuad(whole, quad, t);
      }
    }
  }

  /** A complete quartet that is well formed by itself is decoded after the others. */
  lemma StreamingCompletes(fed: bytes, quad: bytes, sawPadding: bool, out: bytes)
    requires Streaming(fed, quad, sawPadding, out) && |quad| == 4 && WellFormed(quad, Standard)
    ensures Streaming(fed, [], sawPadding, out + Decode(quad, Standard))
  {
    hide InAlphabet, BodyLength, Spell;
    var w, k := |fed| - 4, BodyLength(fed);
    assert fed[..|fed|] == fed && fed[|fed|..] == [];
    QuadBody(fed, quad);
    BodyLengthIs(fed[..w], w);
    assert fed[..w][..w] == fed[..w];
    assert fed[w..k] == quad[..k - w];
    SpelledMore(fed, Standard, w, k);
  }

  /** A well-formed last quartet holds all the padding of its text. */
  lemma QuadBody(fed: bytes, quad: bytes)
    requires |quad| == 4 <= |fed| && fed[|fed| - 4..] == quad && WellFormed(quad, Standard)
    requires AllPad(fed[BodyLength(fed)..])
    ensures BodyLength(fed) == |fed| - 4 + BodyLength(quad) && 2 <= BodyLength(quad)
  {
    var w, k := |fed| - 4, BodyLength(fed);
    assert quad[0] == fed[w];
    QuadStarts(quad);
    forall i | 0 <= i < k - w ensures quad[i] != PAD {
      assert quad[i] == fed[w + i];
    }
    assert k < |fed| ==> quad[k - w] == fed[k];
    BodyLengthIs(quad, k - w);
  }

  lemma QuadStarts(quad: bytes)
    requires |quad| == 4 && WellFormed(quad, Standard)
    ensures quad[0] != PAD && 2 <= BodyLength(quad)
  {
  }

  class QuartetStream {
    const quad: array<byte>
    var quadLen: nat
    var sawPadding: bool
    var out: bytes
    ghost var fed: bytes

    ghost predicate Valid()
      reads this, quad
    {
      quad.Length == 4 && quadLen < 4 && Streaming(fed, quad[..quadLen], sawPadding, out)
    }

    constructor ()
      ensures Valid() && fed == [] && out == [] && fresh(quad)
    {
      quad := new byte[4](_ => 0);
      quadLen, sawPadding, out, fed := 0, false, [], [];
      new;
      StreamingStarts();
      assert quad[..0] == [];
    }

    /** Takes one character; on failure no continuation of the text is well formed. */
    method AppendChar(ch: byte) returns (status: Status)
      requires Valid()
      modifies this, quad
      ensures fed == old(fed) + [ch] && (status == Ok || status == InvalidJson)
      ensures if status == Ok then Valid() else Doomed(fed)
    {
      hide Streaming, Doomed, WellFormed, Decode, Value, BodyLength;
      fed := fed + [ch];
      ghost var was := quad[..quadLen];
      StreamingFacts(old(fed), was, sawPadding, out);
      if ch != PAD && Value(ch, Standard) < 0 {
        BadLetterDooms(old(fed), ch);
        return InvalidJson;
      }
      if sawPadding && ch != PAD {
        PaddingDooms(old(fed), ch);
        return InvalidJson;
      }
      StreamingJoins(old(fed), was, sawPadding, out, ch);
      quad[quadLen] := ch;
      quadLen := quadLen + 1;
      assert quad[..quadLen] == was + [ch];
      if ch == PAD {
        sawPadding := true;
      }
      status := Ok;
      if quadLen == 4 {
        status := FlushQuad();
      }
    }

    /** Decodes a complete quartet by itself. */
    method FlushQuad() returns (status: Status)
      requires quad.Length == 4 && quadLen == 4 && Streaming(fed, quad[..quadLen], sawPadding, out)
      modifies this`out, this`quadLen
      ensures status == Ok || status == InvalidJson
      ensures if status == Ok then Valid() else Doomed(fed)
    {
      hide Streaming, Doomed, WellFormed, Decode;
      assert quad[..] == quad[..quadLen];
      StreamingFacts(fed, quad[..], sawPadding, out);
      var needed, bytes;
      status, needed, bytes := DecodeBuffer(quad[..], Standard, 3);
      QuadDecodesToThree(quad[..]);
      if status != Ok {
        BadQuadDooms(fed, quad[..]);
        return InvalidJson;
      }
      StreamingCompletes(fed, quad[..], sawPadding, out);
      out := out + bytes;
      quadLen := 0;
      assert quad[..0] == [];
    }

    /** Takes a chunk. */
    method Append(data: bytes) returns (status: Status)
      requires Valid()
      modifies this, quad
      ensures status == Ok || status == InvalidJson
      ensures if status == Ok then Valid() && fed == old(fed) + data else Doomed(old(fed) + data)
    {
      hide Streaming, Doomed;
      assert old(fed) + data[..0] == old(fed);
      var i := 0;
      while i < |data|
        invariant 0 <= i <= |data| && Valid() && fed == old(fed) + data[..i]
      {
        status := AppendChar(data[i]);
        assert fed == old(fed) + data[..i + 1];
        if status != Ok {
          DoomedMore(fed, data[i + 1..]);
          assert old(fed) + data == fed + data[i + 1..];
          return;
        }
        i := i + 1;
      }
      assert data[..i] == data;
      status := Ok;
    }

    /** Ends the field. */
    method Finish() returns (status: Status)
      requires Valid()
      modifies this
      ensures status == if WellFormed(fed, Standard) then Ok else InvalidJson
      ensures status == Ok ==> out == Decode(fed, Standard)
      ensures fed == old(fed) && out == old(out)
    {
      assert fed[..|fed|] == fed;
      status := if quadLen != 0 then InvalidJson else Ok;
      FinishedFed(fed, quad[..quadLen], sawPadding, out);
      quadLen, sawPadding := 0, false;
    }
  }

  lemma FinishedFed(fed: bytes, quad: bytes, sawPadding: bool, out: bytes)
    requires Streaming(fed, quad, sawPadding, out) && |quad| < 4
    ensures WellFormed(fed, Standard) <==> quad == []
    ensures quad == [] ==> out == Decode(fed, Standard)
  {
    hide BodyLength, AllInAlphabet, AllPad, WellFormed, Decode;
    assert fed[..|fed|] == fed;
    if WellFormed(fed, Standard) {
      WholeQuartets(fed);
    }
  }

  lemma WholeQuartets(s: bytes)
    requires WellFormed(s, Standard)
    ensures |s| % 4 == 0
  {
  }

  lemma StreamingFacts(fed: bytes, quad: bytes, sawPadding: bool, out: bytes)
    requires Streaming(fed, quad, sawPadding, out)
    ensures (sawPadding <==> BodyLength(fed) < |fed|) && |quad| <= |fed|
    ensures |quad| == 4 ==> |fed| % 4 == 0 && fed[|fed| - 4..] == quad
  {
    hide WellFormed, Decode, BodyLength, AllInAlphabet, AllPad;
  }

  lemma QuadDecodesToThree(quad: bytes)
    requires |quad| == 4
    ensures WellFormed(quad, Standard) ==> |Decode(quad, Standard)| <= 3
  {
    hide BodyLength, Spell;
    if WellFormed(quad, Standard) {
      PaddingIs(quad, Standard);
      SpellLength(Values(quad[..BodyLength(quad)], Standard));
    }
  }

  lemma DoomedMore(s: bytes, more: bytes)
    requires Doomed(s)
    ensures Doomed(s + more)
  {
    forall t: bytes ensures !WellFormed(s + more + t, Standard) {
      assert s + more + t == s + (more + t);
    }
  }

  lemma DoomedNow(s: bytes)
    requires Doomed(s)
    ensures !WellFormed(s, Standard)
  {
    assert s + [] == s;
  }

  /** A whole field in any chunks: what the one-shot decoder answers for the
      chunks joined. */
  method DecodeChunks(chunks: seq<bytes>) returns (status: Status, out: bytes)
    ensures status == if WellFormed(Concat(chunks), Standard) then Ok else InvalidJson
    ensures status == Ok ==> out == Decode(Concat(chunks), Standard)
  {
    hide Doomed, WellFormed, Decode, Concat;
    var stream := new QuartetStream();
    NoChunks(chunks);
    out := [];
    var i := 0;
    while i < |chunks|
      invariant 0 <= i <= |chunks| && stream.Valid() && fresh(stream) && fresh(stream.quad) && stream.fed == Concat(chunks[..i])
    {
      ConcatTake(chunks, i);
      status := stream.Append(chunks[i]);
      if status != Ok {
        ChunksDoomed(chunks, i + 1);
        return;
      }
      i := i + 1;
    }
    assert chunks[..i] == chunks;
    status := stream.Finish();
    out := stream.out;
  }

  lemma NoChunks(chunks: seq<bytes>)
    ensures Concat(chunks[..0]) == []
  {
  }

  lemma {:induction false} ConcatSplit(chunks: seq<bytes>, i: nat)
    requires i <= |chunks|
    ensures Concat(chunks) == Concat(chunks[..i]) + Concat(chunks[i..])
  {
    if i == 0 {
      assert chunks[..0] == [] && chunks[0..] == chunks;
    } else {
      ConcatSplit(chunks[1..], i - 1);
      assert chunks[..i][1..] == chunks[1..][..i - 1] && chunks[i..] == chunks[1..][i - 1..];
      var a, b := Concat(chunks[1..][..i - 1]), Concat(chunks[i..]);
      assert chunks[0] + (a + b) == chunks[0] + a + b;
    }
  }

  lemma ChunksDoomed(chunks: seq<bytes>, i: nat)
    requires i <= |chunks| && Doomed(Concat(chunks[..i]))
    ensures !WellFormed(Concat(chunks), Standard)
  {
    hide Doomed, WellFormed, Concat;
    ConcatSplit(chunks, i);
    DoomedMore(Concat(chunks[..i]), Concat(chunks[i..]));
    DoomedNow(Concat(chunks));
  }
}
