/** The base64 loops: the length of an encoding, the encoder, the check of a
    text, the decoder, and the accumulator that decodes a field as its bytes
    arrive. */
module Base64Codec {
  import opened Bytes
  import opened Base64

  // ----- Lengths -----

  /** The length of the encoding, which overflows exactly when it is not a size. */
  method EncodedLen(len: nat, v: Variant) returns (status: Status, encoded: nat)
    requires len <= SIZE_MAX
    ensures status == if EncodedLength(len, v) <= SIZE_MAX then Ok else Overflow
    ensures encoded == if status == Ok then EncodedLength(len, v) else 0
  {
    var groups, rem := len / 3, len % 3;
    if SIZE_MAX / 4 < groups {
      return Overflow, 0;
    }
    encoded := groups * 4;
    if rem != 0 {
      if IsRaw(v) {
        encoded := WrappingAdd(encoded, rem + 1);
      } else {
        if SIZE_MAX - 4 < encoded {
          return Overflow, 0;
        }
        encoded := WrappingAdd(encoded, 4);
      }
    }
    status := Ok;
  }

  /** Addition of sizes. */
  function WrappingAdd(a: nat, b: nat): nat {
    (a + b) % (SIZE_MAX + 1)
  }

  // ----- Encoding -----

  /** One group of up to three bytes. */
  method EmitQuad(data: bytes, v: Variant) returns (out: bytes)
    requires 1 <= |data| <= 3
    ensures out == Encode(data, v)
  {
    var d1 := if 1 < |data| then data[1] else 0;
    var d2 := if 2 < |data| then data[2] else 0;
    QuadLetters(data, v);
    SextetsParts(data[0], d1, d2);
    out := [Letter(data[0] / 4 % 64, v), Letter(data[0] % 4 * 16 + d1 / 16, v)];
    if 1 < |data| {
      out := out + [Letter(d1 % 16 * 4 + d2 / 64, v)];
    } else if !IsRaw(v) {
      out := out + [PAD];
    }
    if 2 < |data| {
      out := out + [Letter(d2 % 64, v)];
    } else if !IsRaw(v) {
      out := out + [PAD];
    }
  }

  lemma QuadLetters(data: bytes, v: Variant)
    requires 1 <= |data| <= 3
    ensures var d1, d2 := if 1 < |data| then data[1] else 0, if 2 < |data| then data[2] else 0;
            var x := Sextets(data[0], d1, d2);
            Encode(data, v) ==
              [Letter(x[0], v), Letter(x[1], v)]
              + (if 1 < |data| then [Letter(x[2], v)] else if IsRaw(v) then [] else [PAD])
              + (if 2 < |data| then [Letter(x[3], v)] else if IsRaw(v) then [] else [PAD])
  {
    hide Sextets, Letter;
    if |data| == 3 {
      assert data[3..] == [] && Encode(data[3..], v) == [];
    }
  }

  lemma {:induction false} EncodeConcat(a: bytes, b: bytes, v: Variant)
    requires |a| % 3 == 0
    ensures Encode(a + b, v) == Encode(a, v) + Encode(b, v)
  {
    hide Sextets, Letters, Padding;
    if a == [] {
      assert a + b == b;
    } else {
      LessThree(|a|);
      EncodeConcat(a[3..], b, v);
      assert (a + b)[3..] == a[3..] + b;
      var x := Letters(Sextets(a[0], a[1], a[2]), v);
      assert x + (Encode(a[3..], v) + Encode(b, v)) == x + Encode(a[3..], v) + Encode(b, v);
    }
  }

  /** The loop's test passes though fewer than three bytes are left: the sum in it
      wraps. Only for an input of the largest size does that happen. */
  lemma TestWrapsExactly(len: nat)
    requires len <= SIZE_MAX
    ensures (exists offset: nat :: offset <= len < offset + 3 && offset % 3 == 0 && WrappingAdd(offset, 3) <= len) <==> len == SIZE_MAX
  {
    if len == SIZE_MAX {
      assert SIZE_MAX % 3 == 0 && WrappingAdd(SIZE_MAX, 3) == 2;
    }
  }

  lemma TestIsExact(offset: nat, len: nat)
    requires offset <= len < SIZE_MAX && offset % 3 == 0
    ensures WrappingAdd(offset, 3) <= len <==> offset + 3 <= len
  {
    TestWrapsExactly(len);
  }

  /** Encodes into a sink, three bytes at a time. For an input of the largest size
      the loop would run past its end. */
  method EncodeSink(data: bytes, v: Variant) returns (out: bytes)
    requires |data| < SIZE_MAX
    ensures out == Encode(data, v) && |out| == EncodedLength(|data|, v)
  {
    hide Encode, WrappingAdd;
    EncodeLength(data, v);
    out := [];
    var offset := 0;
    EncodeNothing(v);
    TestIsExact(offset, |data|);
    while WrappingAdd(offset, 3) <= |data|
      invariant 0 <= offset <= |data| && offset % 3 == 0
      invariant WrappingAdd(offset, 3) <= |data| <==> offset + 3 <= |data|
      invariant out == Encode(data[..offset], v)
      decreases |data| - offset
    {
      var quad := EmitQuad(data[offset..offset + 3], v);
      EncodeConcat(data[..offset], data[offset..offset + 3], v);
      assert data[..offset] + data[offset..offset + 3] == data[..offset + 3];
      out := out + quad;
      offset := offset + 3;
      TestIsExact(offset, |data|);
    }
    assert data[..offset] + data[offset..] == data && (offset == |data| ==> data[..offset] == data);
    if offset < |data| {
      var quad := EmitQuad(data[offset..], v);
      EncodeConcat(data[..offset], data[offset..], v);
      out := out + quad;
    }
  }

  lemma EncodeNothing(v: Variant)
    ensures Encode([], v) == []
  {
  }

  /** Encodes into a buffer of a given capacity. */
  method EncodeBuffer(data: bytes, v: Variant, capacity: nat) returns (status: Status, needed: nat, out: bytes)
    requires |data| <= SIZE_MAX
    ensures if SIZE_MAX < EncodedLength(|data|, v) then status == Overflow && needed == 0
            else needed == |Encode(data, v)| && status == if needed <= capacity then Ok else Truncated
    ensures out == if status == Ok then Encode(data, v) else []
    ensures |out| <= capacity
  {
    out := [];
    EncodeLength(data, v);
    status, needed := EncodedLen(|data|, v);
    if status != Ok {
      return;
    }
    if capacity < needed {
      return Truncated, needed, [];
    }
    out := EncodeSink(data, v);
  }

  // ----- Checking -----

  /** `i` characters read: alphabet characters up to `k`, then padding. */
  ghost predicate Prefix(s: bytes, v: Variant, i: nat, k: nat) {
    k <= i <= |s| && AllInAlphabet(s[..k], v) && (forall j :: k <= j < i ==> s[j] == PAD)
  }

  lemma PrefixLetter(s: bytes, v: Variant, i: nat)
    requires Prefix(s, v, i, i) && i < |s| && InAlphabet(s[i], v)
    ensures Prefix(s, v, i + 1, i + 1)
  {
  }

  /** The body of a text of which a prefix is read. */
  lemma PrefixBody(s: bytes, v: Variant, i: nat, k: nat)
    requires Prefix(s, v, i, k)
    ensures if k < i || i == |s| then BodyLength(s) == k else k <= BodyLength(s)
    ensures k == i < |s| ==> (s[i] == PAD <==> BodyLength(s) == k)
    ensures i == |s| ==> AllInAlphabet(s[..BodyLength(s)], v) && AllPad(s[BodyLength(s)..])
  {
    hide Value;
    forall j | 0 <= j < k ensures s[j] != PAD {
      assert InAlphabet(s[..k][j], v);
      LetterOfValue(s[j], v);
    }
    if k < i || i == |s| || s[i] == PAD {
      BodyLengthIs(s, k);
    }
  }

  /** The bytes decoded from `i` characters read so far, whole quartets only. */
  function QuartetBytes(i: nat, k: nat): int {
    if i % 4 == 0 then i / 4 * 3 - (i - k) else i / 4 * 3
  }

  /** What the counters of the check say after `i` characters: the padding of a
      padded text is in its last quartet. */
  ghost predicate Checking(s: bytes, v: Variant, i: nat, k: nat, quartet: nat, padding: nat, sawPadding: bool, decoded: nat) {
    && Prefix(s, v, i, k) && quartet == i % 4 && (sawPadding <==> k < i)
    && padding == (if i % 4 == 0 then 0 else i - k) && decoded == QuartetBytes(i, k)
    && (k < i ==> !IsRaw(v) && i - k <= 2 && 2 <= k % 4 && i <= k / 4 * 4 + 4)
    && (k < i && i % 4 != 0 ==> i / 4 == k / 4)
  }

  /** The counters after one more character, the padding of its quartet being `p`. */
  function Quartet(quartet: nat): nat {
    if quartet + 1 == 4 then 0 else quartet + 1
  }

  lemma CheckingLetter(s: bytes, v: Variant, i: nat, quartet: nat, padding: nat, decoded: nat)
    requires Checking(s, v, i, i, quartet, padding, false, decoded) && i < |s| && InAlphabet(s[i], v)
    ensures padding == 0
    ensures Checking(s, v, i + 1, i + 1, Quartet(quartet), 0, false, if quartet + 1 == 4 then decoded + 3 else decoded)
  {
    hide Prefix, InAlphabet;
    PrefixLetter(s, v, i);
  }

  lemma CheckingPad(s: bytes, v: Variant, i: nat, k: nat, quartet: nat, padding: nat, sawPadding: bool, decoded: nat)
    requires Checking(s, v, i, k, quartet, padding, sawPadding, decoded) && i < |s| && s[i] == PAD
    requires !IsRaw(v) && padding + 1 <= 2 <= quartet
    ensures Checking(s, v, i + 1, k, Quartet(quartet), if quartet + 1 == 4 then 0 else padding + 1, true,
                     if quartet + 1 == 4 then decoded + (3 - (padding + 1)) else decoded)
  {
    hide AllInAlphabet;
  }

  lemma PadFails(s: bytes, v: Variant, i: nat, k: nat, quartet: nat, padding: nat, sawPadding: bool, decoded: nat)
    requires Checking(s, v, i, k, quartet, padding, sawPadding, decoded) && i < |s| && s[i] == PAD
    requires IsRaw(v) || 2 < padding + 1 || quartet < 2
    ensures !WellFormed(s, v)
  {
    hide Value, BodyLength;
    PrefixBody(s, v, i, k);
    if !IsRaw(v) && |s| % 4 == 0 && |s| <= k + 2 {
      PadToFour(k, |s|);
    }
  }

  lemma LetterAfterPad(s: bytes, v: Variant, i: nat, k: nat)
    requires Prefix(s, v, i, k) && k < i < |s| && s[i] != PAD
    ensures !WellFormed(s, v)
  {
    hide Value, BodyLength;
    PrefixBody(s, v, i, k);
    assert s[k..][i - k] == s[i];
  }

  lemma BadLetter(s: bytes, v: Variant, i: nat)
    requires Prefix(s, v, i, i) && i < |s| && s[i] != PAD && !InAlphabet(s[i], v)
    ensures !WellFormed(s, v)
  {
    hide Value, BodyLength;
    PrefixBody(s, v, i, i);
    assert s[..BodyLength(s)][i] == s[i];
  }

  lemma CheckingEnds(s: bytes, v: Variant, k: nat, quartet: nat, padding: nat, sawPadding: bool, decoded: nat)
    requires Checking(s, v, |s|, k, quartet, padding, sawPadding, decoded)
    ensures quartet != 0 ==> (WellFormed(s, v) <==> IsRaw(v) && quartet != 1)
    ensures quartet == 0 ==> WellFormed(s, v) && padding == 0
    ensures WellFormed(s, v) ==> |Decode(s, v)| == decoded + (if quartet != 0 then quartet - 1 else 0)
  {
    hide Value, BodyLength, Spell;
    PrefixBody(s, v, |s|, k);
    if WellFormed(s, v) {
      PaddingIs(s, v);
      SpellLength(Values(s[..k], v));
    }
  }

  /** Accepts exactly the well-formed texts, and counts the bytes they decode to. */
  method Check(s: bytes, v: Variant) returns (status: Status, decodedLen: nat)
    ensures status == if WellFormed(s, v) then Ok else InvalidJson
    ensures status == Ok ==> decodedLen == |Decode(s, v)|
  {
    hide WellFormed, Decode, Checking, Value, BodyLength;
    decodedLen := 0;
    var quartet, padding, sawPadding := 0, 0, false;
    ghost var k := 0;
    CheckingStarts(s, v);
    var i := 0;
    while i < |s|
      invariant 0 <= i <= |s| && Checking(s, v, i, k, quartet, padding, sawPadding, decodedLen)
    {
      CheckingFacts(s, v, i, k, quartet, padding, sawPadding, decodedLen);
      var ch := s[i];
      if ch == PAD {
        if IsRaw(v) || 2 < padding + 1 || quartet < 2 {
          PadFails(s, v, i, k, quartet, padding, sawPadding, decodedLen);
          return InvalidJson, decodedLen;
        }
        CheckingPad(s, v, i, k, quartet, padding, sawPadding, decodedLen);
        sawPadding := true;
        padding := padding + 1;
      } else {
        if sawPadding {
          LetterAfterPad(s, v, i, k);
          return InvalidJson, decodedLen;
        }
        if Value(ch, v) < 0 {
          BadLetter(s, v, i);
          return InvalidJson, decodedLen;
        }
        CheckingLetter(s, v, i, quartet, padding, decodedLen);
        k := i + 1;
      }
      quartet := quartet + 1;
      if quartet == 4 {
        decodedLen := decodedLen + (3 - padding);
        quartet, padding := 0, 0;
      }
      i := i + 1;
    }
    CheckingEnds(s, v, k, quartet, padding, sawPadding, decodedLen);
    if quartet != 0 {
      if !IsRaw(v) || quartet == 1 {
        return InvalidJson, decodedLen;
      }
      decodedLen := decodedLen + (quartet - 1);
    } else if sawPadding && padding != 0 {
      return InvalidJson, decodedLen;
    }
    status := Ok;
  }

  lemma CheckingStarts(s: bytes, v: Variant)
    ensures Checking(s, v, 0, 0, 0, 0, false, 0)
  {
  }

  lemma CheckingFacts(s: bytes, v: Variant, i: nat, k: nat, quartet: nat, padding: nat, sawPadding: bool, decoded: nat)
    requires Checking(s, v, i, k, quartet, padding, sawPadding, decoded)
    ensures Prefix(s, v, i, k) && quartet < 4 && (sawPadding <==> k < i) && padding <= 2
  {
    hide Prefix;
  }

  // ----- Decoding -----

  lemma SmallRemainder(n: byte)
    ensures n % 256 == n
  {
  }

  /** A group of four values, the last of them zero where the text has padding or
      has ended, as `outLen` bytes. */
  method DecodeEmit(values: array<int>, groupLen: nat, outLen: nat) returns (out: bytes)
    requires values.Length == 4 && (forall i :: 0 <= i < 4 ==> 0 <= values[i] < 64)
    requires 2 <= groupLen <= 4 && outLen < groupLen
    ensures out == Octets(values[0], values[1], values[2], values[3])[..outLen]
  {
    var bits := ((values[0] * 64 + values[1]) * 64 + values[2]) * 64 + values[3];
    ghost var o := Octets(values[0], values[1], values[2], values[3]);
    assert o == [bits / 65536, bits / 256 % 256, bits % 256];
    SmallRemainder(o[0]);
    out := [];
    if 2 <= groupLen && 1 <= outLen {
      out := out + [bits / 65536 % 256];
    }
    if 3 <= groupLen && 2 <= outLen {
      out := out + [bits / 256 % 256];
    }
    if groupLen == 4 && outLen == 3 {
      out := out + [bits % 256];
    }
  }

  /** The value of the character at `j`, zero for padding and past the end. */
  ghost function SextetAt(s: bytes, v: Variant, j: nat): sextet {
    if j < |s| && InAlphabet(s[j], v) then Value(s[j], v) else 0
  }

  /** The bytes that the first `n` characters spell. */
  ghost function SpelledUpTo(s: bytes, v: Variant, n: nat): bytes
    requires n <= |s| && AllInAlphabet(s[..n], v)
  {
    Spell(Values(s[..n], v))
  }

  /** One more group of characters, from `g` up to `e`. */
  lemma SpelledMore(s: bytes, v: Variant, g: nat, e: nat)
    requires g <= e <= |s| && g % 4 == 0 && AllInAlphabet(s[..e], v)
    ensures AllInAlphabet(s[..g], v) && AllInAlphabet(s[g..e], v)
    ensures SpelledUpTo(s, v, e) == SpelledUpTo(s, v, g) + Spell(Values(s[g..e], v))
  {
    hide Spell, InAlphabet;
    forall i | 0 <= i < g ensures InAlphabet(s[..g][i], v) {
      assert s[..g][i] == s[..e][i];
    }
    forall i | 0 <= i < e - g ensures InAlphabet(s[g..e][i], v) {
      assert s[g..e][i] == s[..e][g + i];
    }
    var x, y := Values(s[..g], v), Values(s[g..e], v);
    assert s[..e] == s[..g] + s[g..e];
    assert Values(s[..e], v) == x + y;
    SpellConcat(x, y);
  }

  /** What a group of `n` characters from `g` spells, `e` being where its
      characters of the alphabet end. */
  lemma GroupSpells(s: bytes, v: Variant, g: nat, e: nat)
    requires g + 2 <= e <= g + 4 && e <= |s| && AllInAlphabet(s[g..e], v)
    requires e < g + 4 ==> forall j :: e <= j < g + 4 ==> SextetAt(s, v, j) == 0
    ensures Spell(Values(s[g..e], v)) ==
            Octets(SextetAt(s, v, g), SextetAt(s, v, g + 1), SextetAt(s, v, g + 2), SextetAt(s, v, g + 3))[..e - g - 1]
  {
    hide Octets, InAlphabet;
    forall j | g <= j < e ensures SextetAt(s, v, j) == Values(s[g..e], v)[j - g] {
      assert InAlphabet(s[g..e][j - g], v);
    }
    if e == g + 4 {
      assert Values(s[g..e], v)[4..] == [];
    }
  }

  /** `i` characters of a well-formed text decoded into `out`, those of the last,
      incomplete group standing in `values`. */
  ghost predicate Decoding(s: bytes, v: Variant, i: nat, values: seq<int>, groupLen: nat, padding: nat, out: bytes) {
    && WellFormed(s, v) && i <= |s| && |values| == 4 && groupLen == i % 4
    && (forall j :: 0 <= j < 4 ==> values[j] == if j < groupLen then SextetAt(s, v, i - groupLen + j) else 0)
    && padding == (if groupLen == 0 || i < BodyLength(s) then 0 else i - BodyLength(s))
    && (var g := Min(i - groupLen, BodyLength(s));
        && AllInAlphabet(s[..g], v) && out == SpelledUpTo(s, v, g))
  }

  lemma DecodingStarts(s: bytes, v: Variant)
    requires WellFormed(s, v)
    ensures Decoding(s, v, 0, [0, 0, 0, 0], 0, 0, [])
  {
  }

  lemma WellFormedAt(s: bytes, v: Variant, i: nat)
    requires WellFormed(s, v) && i < |s|
    ensures if i < BodyLength(s) then InAlphabet(s[i], v) && s[i] != PAD else s[i] == PAD && !InAlphabet(s[i], v)
    ensures BodyLength(s) <= i ==> !IsRaw(v) && |s| % 4 == 0 && |s| <= BodyLength(s) + 2
  {
    hide BodyLength;
    var k := BodyLength(s);
    if i < k {
      assert s[i] == s[..k][i];
    } else {
      assert s[i] == s[k..][i - k];
    }
  }

  /** The character `i` joins an incomplete group. */
  lemma DecodingJoins(s: bytes, v: Variant, i: nat, values: seq<int>, groupLen: nat, padding: nat, out: bytes)
    requires Decoding(s, v, i, values, groupLen, padding, out) && i < |s| && groupLen < 3
    ensures Decoding(s, v, i + 1, values[groupLen := SextetAt(s, v, i)], groupLen + 1,
                     if s[i] == PAD then padding + 1 else padding, out)
  {
    hide WellFormed, AllInAlphabet, SpelledUpTo, InAlphabet;
    WellFormedAt(s, v, i);
    GroupStart(i);
    PadOnlyInLast(s, v, i);
  }

  lemma GroupStart(i: nat)
    requires i % 4 < 3
    ensures (i + 1) % 4 == i % 4 + 1
  {
  }

  /** Padding starts in the group it ends, so no group of padding alone follows. */
  lemma PadOnlyInLast(s: bytes, v: Variant, i: nat)
    requires WellFormed(s, v) && i < |s|
    ensures i - i % 4 < BodyLength(s)
    ensures BodyLength(s) <= i ==> i - i % 4 + 4 == |s| && i - i % 4 + 2 <= BodyLength(s)
    ensures i % 4 == 3 && i < BodyLength(s) ==> i + 1 <= BodyLength(s)
  {
    hide BodyLength, AllInAlphabet, AllPad;
    if BodyLength(s) <= i {
      PadToFour(BodyLength(s), |s|);
      LastGroup(BodyLength(s), |s|, i);
    }
  }

  lemma LastGroup(k: nat, n: nat, i: nat)
    requires n % 4 == 0 && k <= i < n <= k + 2
    ensures i - i % 4 + 4 == n
  {
  }

  /** The character `i` completes a group of four. */
  lemma DecodingCompletes(s: bytes, v: Variant, i: nat, values: seq<int>, padding: nat, out: bytes, full: seq<sextet>, more: bytes)
    requires Decoding(s, v, i, values, 3, padding, out) && i < |s|
    requires full == values[3 := SextetAt(s, v, i)]
    requires var p := if s[i] == PAD then padding + 1 else padding;
             p <= 2 && more == Octets(full[0], full[1], full[2], full[3])[..3 - p]
    ensures Decoding(s, v, i + 1, [0, 0, 0, 0], 0, 0, out + more)
  {
    hide WellFormed, AllInAlphabet, SpelledUpTo, InAlphabet, Octets;
    WellFormedAt(s, v, i);
    PadOnlyInLast(s, v, i);
    var g, k := i - 3, BodyLength(s);
    var e := Min(i + 1, k);
    BodyInAlphabet(s, v, e);
    SpelledMore(s, v, g, e);
    PadsAreZero(s, v, e, i + 1);
    GroupSpells(s, v, g, e);
  }

  lemma BodyInAlphabet(s: bytes, v: Variant, e: nat)
    requires WellFormed(s, v) && e <= BodyLength(s)
    ensures AllInAlphabet(s[..e], v)
  {
    hide BodyLength, InAlphabet;
    forall i | 0 <= i < e ensures InAlphabet(s[..e][i], v) {
      assert s[..BodyLength(s)][i] == s[..e][i];
    }
  }

  lemma PadsAreZero(s: bytes, v: Variant, e: nat, n: nat)
    requires WellFormed(s, v) && n <= |s| && (e < n ==> BodyLength(s) <= e)
    ensures forall j :: e <= j < n ==> SextetAt(s, v, j) == 0
  {
    forall j | e <= j < n ensures SextetAt(s, v, j) == 0 {
      WellFormedAt(s, v, j);
    }
  }

  /** After the last character: what an incomplete group still spells. */
  lemma DecodingEnds(s: bytes, v: Variant, values: seq<int>, groupLen: nat, padding: nat, out: bytes)
    requires Decoding(s, v, |s|, values, groupLen, padding, out)
    ensures groupLen == 0 ==> out == Decode(s, v)
    ensures groupLen != 0 ==>
              && 2 <= groupLen < 4 && (forall i :: 0 <= i < 4 ==> 0 <= values[i] < 64)
              && out + Octets(values[0], values[1], values[2], values[3])[..groupLen - 1] == Decode(s, v)
  {
    hide InAlphabet, Octets, Spell, BodyLength;
    var k := BodyLength(s);
    BodyInAlphabet(s, v, k);
    PaddingIs(s, v);
    if groupLen != 0 {
      var g := |s| - groupLen;
      SpelledMore(s, v, g, k);
      GroupSpells(s, v, g, k);
    }
  }

  /** Decodes into a sink. */
  method DecodeSink(s: bytes, v: Variant) returns (status: Status, out: bytes)
    ensures status == if WellFormed(s, v) then Ok else InvalidJson
    ensures out == if status == Ok then Decode(s, v) else []
  {
    hide WellFormed, Decode, Decoding, Value, Octets, SextetAt, BodyLength;
    var decodedLen;
    status, decodedLen := Check(s, v);
    out := [];
    if status != Ok {
      return;
    }
    var values := new int[4](_ => 0);
    var groupLen, padding := 0, 0;
    DecodingStarts(s, v);
    assert values[..] == [0, 0, 0, 0];
    var i := 0;
    while i < |s|
      invariant 0 <= i <= |s| && groupLen < 4 && fresh(values)
      invariant forall j :: 0 <= j < 4 ==> 0 <= values[j] < 64
      invariant Decoding(s, v, i, values[..], groupLen, padding, out)
    {
      var ch := s[i];
      CharacterValue(s, v, i);
      ghost var was, before := values[..], padding;
      if ch == PAD {
        values[groupLen] := 0;
        padding := padding + 1;
      } else {
        values[groupLen] := Value(ch, v);
      }
      assert values[..] == was[groupLen := SextetAt(s, v, i)];
      groupLen := groupLen + 1;
      if groupLen == 4 {
        DecodingPadding(s, v, i, was, before, out);
        var more := DecodeEmit(values, groupLen, 3 - padding);
        DecodingCompletes(s, v, i, was, before, out, values[..], more);
        out := out + more;
        values[0], values[1], values[2], values[3] := 0, 0, 0, 0;
        assert values[..] == [0, 0, 0, 0];
        groupLen, padding := 0, 0;
      } else {
        DecodingJoins(s, v, i, was, groupLen - 1, before, out);
      }
      i := i + 1;
    }
    DecodingEnds(s, v, values[..], groupLen, padding, out);
    if groupLen != 0 {
      var more := DecodeEmit(values, groupLen, groupLen - 1);
      out := out + more;
    }
  }

  lemma CharacterValue(s: bytes, v: Variant, i: nat)
    requires i < |s|
    ensures WellFormed(s, v) ==> SextetAt(s, v, i) == if s[i] == PAD then 0 else Value(s[i], v)
  {
    if WellFormed(s, v) {
      WellFormedAt(s, v, i);
    }
  }

  lemma DecodingPadding(s: bytes, v: Variant, i: nat, values: seq<int>, padding: nat, out: bytes)
    requires Decoding(s, v, i, values, 3, padding, out) && i < |s|
    ensures (if s[i] == PAD then padding + 1 else padding) <= 2
  {
    hide SpelledUpTo, BodyLength;
    WellFormedAt(s, v, i);
    PadOnlyInLast(s, v, i);
  }

  /** Decodes into a buffer of a given capacity. */
  method DecodeBuffer(s: bytes, v: Variant, capacity: nat) returns (status: Status, needed: nat, out: bytes)
    ensures if !WellFormed(s, v) then status == InvalidJson && needed == 0
            else needed == |Decode(s, v)| && status == if needed <= capacity then Ok else Truncated
    ensures out == if status == Ok then Decode(s, v) else []
  {
    hide WellFormed, Decode;
    out := [];
    status, needed := Check(s, v);
    if status != Ok {
      return InvalidJson, 0, [];
    }
    if capacity < needed {
      return Truncated, needed, [];
    }
    status, out := DecodeSink(s, v);
  }
}
