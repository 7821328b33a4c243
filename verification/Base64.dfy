/** Base64 in four variants (RFC 4648, sections 3.2, 4 and 5): what an encoding
    and a decoding are, and how they undo each other. */
module Base64 {
  import opened Bytes

  datatype Variant = Standard | StandardRaw | Url | UrlRaw

  const PAD: byte := 61

  predicate IsUrl(v: Variant) {
    v == Url || v == UrlRaw
  }

  predicate IsRaw(v: Variant) {
    v == StandardRaw || v == UrlRaw
  }

  /** The character for a six-bit value. */
  function Letter(n: int, v: Variant): byte
    requires 0 <= n < 64
  {
    if n < 26 then 65 + n
    else if n < 52 then 97 + (n - 26)
    else if n < 62 then 48 + (n - 52)
    else if n == 62 then (if IsUrl(v) then 45 else 43)
    else if IsUrl(v) then 95 else 47
  }

  function Value(c: byte, v: Variant): (r: int)
    ensures -1 <= r < 64
  {
    if 65 <= c <= 90 then c - 65
    else if 97 <= c <= 122 then c - 97 + 26
    else if 48 <= c <= 57 then c - 48 + 52
    else if IsUrl(v) then (if c == 45 then 62 else if c == 95 then 63 else -1)
    else if c == 43 then 62 else if c == 47 then 63 else -1
  }

  predicate InAlphabet(c: byte, v: Variant) {
    0 <= Value(c, v)
  }

  lemma ValueOfLetter(n: int, v: Variant)
    requires 0 <= n < 64
    ensures Value(Letter(n, v), v) == n && Letter(n, v) != PAD
  {
  }

  lemma LetterOfValue(c: byte, v: Variant)
    requires InAlphabet(c, v)
    ensures Letter(Value(c, v), v) == c && c != PAD
  {
  }

  lemma LessThree(n: nat)
    requires 3 <= n
    ensures n / 3 == (n - 3) / 3 + 1 && n % 3 == (n - 3) % 3
  {
  }

  lemma LessFour(n: nat)
    requires 4 <= n
    ensures n / 4 == (n - 4) / 4 + 1 && n % 4 == (n - 4) % 4
  {
  }

  // ----- Groups of 24 bits -----

  type sextet = n: int | 0 <= n < 64

  /** Three bytes as four sextets, most significant first. */
  function Sextets(a: byte, b: byte, c: byte): (r: seq<sextet>)
    ensures |r| == 4
  {
    var n := (a * 256 + b) * 256 + c;
    [n / 262144, n / 4096 % 64, n / 64 % 64, n % 64]
  }

  function Octets(p: sextet, q: sextet, r: sextet, s: sextet): (o: bytes)
    ensures |o| == 3
  {
    var n := ((p * 64 + q) * 64 + r) * 64 + s;
    [n / 65536, n / 256 % 256, n % 256]
  }

  lemma Divide64(n: int, hi: int, lo: int)
    requires n == 64 * hi + lo && 0 <= lo < 64
    ensures n / 64 == hi && n % 64 == lo
  {
  }

  lemma Divide256(n: int, hi: int, lo: int)
    requires n == 256 * hi + lo && 0 <= lo < 256
    ensures n / 256 == hi && n % 256 == lo
  {
  }

  lemma Divide4096(n: int, hi: int, lo: int)
    requires n == 4096 * hi + lo && 0 <= lo < 4096
    ensures n / 4096 == hi
  {
  }

  lemma Divide65536(n: int, hi: int, lo: int)
    requires n == 65536 * hi + lo && 0 <= lo < 65536
    ensures n / 65536 == hi
  {
  }

  lemma Divide262144(n: int, hi: int, lo: int)
    requires n == 262144 * hi + lo && 0 <= lo < 262144
    ensures n / 262144 == hi
  {
  }

  /** Octets from the parts of their sextets. */
  lemma OctetsOf(p: sextet, q1: int, q0: int, r1: int, r0: int, s: sextet)
    requires 0 <= q1 < 4 && 0 <= q0 < 16 && 0 <= r1 < 16 && 0 <= r0 < 4
    ensures Octets(p, 16 * q1 + q0, 4 * r1 + r0, s) == [p * 4 + q1, q0 * 16 + r1, r0 * 64 + s]
  {
    var n := ((p * 64 + (16 * q1 + q0)) * 64 + (4 * r1 + r0)) * 64 + s;
    var hi, mid, lo := p * 4 + q1, q0 * 16 + r1, r0 * 64 + s;
    assert n == 65536 * hi + (256 * mid + lo);
    Divide65536(n, hi, 256 * mid + lo);
    Divide256(n, 256 * hi + mid, lo);
    Divide256(256 * hi + mid, hi, mid);
  }

  lemma OctetsParts(p: sextet, q: sextet, r: sextet, s: sextet)
    ensures Octets(p, q, r, s) == [p * 4 + q / 16, q % 16 * 16 + r / 4, r % 4 * 64 + s]
  {
    hide Octets;
    OctetsOf(p, q / 16, q % 16, r / 4, r % 4, s);
  }

  /** Sextets from the parts of their octets. */
  lemma SextetsOf(a1: int, a0: int, b1: int, b0: int, c1: int, c0: int)
    requires 0 <= a1 < 64 && 0 <= a0 < 4 && 0 <= b1 < 16 && 0 <= b0 < 16 && 0 <= c1 < 4 && 0 <= c0 < 64
    ensures Sextets(4 * a1 + a0, 16 * b1 + b0, 64 * c1 + c0) == [a1, a0 * 16 + b1, b0 * 4 + c1, c0]
  {
    var n := ((4 * a1 + a0) * 256 + (16 * b1 + b0)) * 256 + (64 * c1 + c0);
    var y, z := a0 * 16 + b1, b0 * 4 + c1;
    assert n == 262144 * a1 + (4096 * y + (64 * z + c0));
    Divide262144(n, a1, 4096 * y + (64 * z + c0));
    Divide4096(n, 64 * a1 + y, 64 * z + c0);
    Divide64(64 * a1 + y, a1, y);
    Divide64(n, 4096 * a1 + 64 * y + z, c0);
    Divide64(4096 * a1 + 64 * y + z, 64 * a1 + y, z);
  }

  lemma SextetsParts(a: byte, b: byte, c: byte)
    ensures Sextets(a, b, c) == [a / 4, a % 4 * 16 + b / 16, b % 16 * 4 + c / 64, c % 64]
  {
    hide Sextets;
    SextetsOf(a / 4, a % 4, b / 16, b % 16, c / 64, c % 64);
  }

  // ----- Encoding -----

  ghost function Letters(s: seq<sextet>, v: Variant): (r: bytes)
    ensures |r| == |s|
  {
    seq(|s|, i requires 0 <= i < |s| => Letter(s[i], v))
  }

  ghost function Padding(n: nat, v: Variant): bytes {
    if IsRaw(v) then [] else seq(n, _ => PAD)
  }

  ghost function Encode(b: bytes, v: Variant): bytes {
    if |b| == 0 then []
    else if |b| == 1 then Letters(Sextets(b[0], 0, 0)[..2], v) + Padding(2, v)
    else if |b| == 2 then Letters(Sextets(b[0], b[1], 0)[..3], v) + Padding(1, v)
    else Letters(Sextets(b[0], b[1], b[2]), v) + Encode(b[3..], v)
  }

  /** The length of the encoding as an integer. */
  function EncodedLength(n: nat, v: Variant): nat {
    if n % 3 == 0 then n / 3 * 4
    else if IsRaw(v) then n / 3 * 4 + n % 3 + 1
    else n / 3 * 4 + 4
  }

  lemma {:induction false} EncodeLength(b: bytes, v: Variant)
    ensures |Encode(b, v)| == EncodedLength(|b|, v)
  {
    hide Sextets, Letters;
    if 3 <= |b| {
      LessThree(|b|);
      EncodeLength(b[3..], v);
    }
  }

  // ----- Decoding -----

  /** The length of the text before its first padding character. */
  function BodyLength(s: bytes): (k: nat)
    ensures k <= |s| && (forall i :: 0 <= i < k ==> s[i] != PAD) && (k < |s| ==> s[k] == PAD)
  {
    if s == [] || s[0] == PAD then 0 else 1 + BodyLength(s[1..])
  }

  ghost predicate AllInAlphabet(s: bytes, v: Variant) {
    forall i :: 0 <= i < |s| ==> InAlphabet(s[i], v)
  }

  ghost predicate AllPad(s: bytes) {
    forall i :: 0 <= i < |s| ==> s[i] == PAD
  }

  /** A body of alphabet characters and the padding the variant asks for: whole
      quartets with at most two padding characters at the end, or no padding and
      no lone character. */
  ghost predicate WellFormed(s: bytes, v: Variant) {
    var k := BodyLength(s);
    && AllInAlphabet(s[..k], v) && AllPad(s[k..])
    && if IsRaw(v) then k == |s| && k % 4 != 1 else |s| % 4 == 0 && |s| - k <= 2
  }

  ghost function Values(s: bytes, v: Variant): (r: seq<sextet>)
    requires AllInAlphabet(s, v)
    ensures |r| == |s|
  {
    seq<sextet>(|s|, i requires 0 <= i < |s| => Value(s[i], v))
  }

  /** The bytes that sextets spell; bits left over are dropped. */
  ghost function Spell(x: seq<sextet>): bytes {
    if |x| < 2 then []
    else if |x| == 2 then Octets(x[0], x[1], 0, 0)[..1]
    else if |x| == 3 then Octets(x[0], x[1], x[2], 0)[..2]
    else Octets(x[0], x[1], x[2], x[3]) + Spell(x[4..])
  }

  ghost function Decode(s: bytes, v: Variant): bytes {
    var body := s[..BodyLength(s)];
    if AllInAlphabet(body, v) then Spell(Values(body, v)) else []
  }

  lemma {:induction false} SpellLength(x: seq<sextet>)
    requires |x| % 4 != 1
    ensures |Spell(x)| == SpelledLength(|x|)
  {
    hide Octets;
    if 4 <= |x| {
      LessFour(|x|);
      SpellLength(x[4..]);
    }
  }

  lemma SpellStep(x: seq<sextet>)
    requires 4 <= |x|
    ensures Spell(x) == Octets(x[0], x[1], x[2], x[3]) + Spell(x[4..])
  {
    hide Octets;
  }

  lemma SpellNil()
    ensures Spell([]) == []
  {
  }

  lemma {:induction false} SpellConcat(x: seq<sextet>, y: seq<sextet>)
    requires |x| % 4 == 0
    ensures Spell(x + y) == Spell(x) + Spell(y)
  {
    hide Octets, Spell;
    if x == [] {
      assert x + y == y;
      SpellNil();
    } else {
      LessFour(|x|);
      SpellConcat(x[4..], y);
      SpellStep(x + y);
      SpellStep(x);
      assert (x + y)[4..] == x[4..] + y;
      var o := Octets(x[0], x[1], x[2], x[3]);
      assert o + (Spell(x[4..]) + Spell(y)) == o + Spell(x[4..]) + Spell(y);
    }
  }

  // ----- Round trips -----

  /** The sextets of the encoding, without padding. */
  ghost function EncodedSextets(b: bytes): (r: seq<sextet>) {
    if |b| == 0 then []
    else if |b| == 1 then Sextets(b[0], 0, 0)[..2]
    else if |b| == 2 then Sextets(b[0], b[1], 0)[..3]
    else Sextets(b[0], b[1], b[2]) + EncodedSextets(b[3..])
  }

  ghost function PadCount(n: nat): nat {
    if n % 3 == 0 then 0 else 3 - n % 3
  }

  lemma LettersConcat(x: seq<sextet>, y: seq<sextet>, v: Variant)
    ensures Letters(x + y, v) == Letters(x, v) + Letters(y, v)
  {
  }

  lemma NoLetters(v: Variant)
    ensures Letters([], v) == [] && Padding(0, v) == []
  {
  }

  lemma FewAreSextets(b: bytes, v: Variant)
    requires |b| < 3
    ensures Encode(b, v) == Letters(EncodedSextets(b), v) + Padding(PadCount(|b|), v)
  {
    hide Sextets, Letters, Padding;
    if |b| == 0 {
      NoLetters(v);
    }
  }

  lemma {:induction false} EncodeIsSextets(b: bytes, v: Variant)
    ensures Encode(b, v) == Letters(EncodedSextets(b), v) + Padding(PadCount(|b|), v)
  {
    hide Sextets, Letters, Padding, PadCount;
    if |b| < 3 {
      FewAreSextets(b, v);
    } else {
      EncodeIsSextets(b[3..], v);
      PadCountThree(|b|);
      var x, y := Sextets(b[0], b[1], b[2]), EncodedSextets(b[3..]);
      LettersConcat(x, y, v);
      var p := Padding(PadCount(|b|), v);
      assert Letters(x, v) + (Letters(y, v) + p) == Letters(x, v) + Letters(y, v) + p;
    }
  }

  lemma PadCountThree(n: nat)
    requires 3 <= n
    ensures PadCount(n) == PadCount(n - 3)
  {
    LessThree(n);
  }

  lemma {:induction false} EncodedSextetsLength(b: bytes)
    ensures |EncodedSextets(b)| == |b| / 3 * 4 + (if |b| % 3 == 0 then 0 else |b| % 3 + 1)
  {
    hide Sextets;
    if 3 <= |b| {
      LessThree(|b|);
      EncodedSextetsLength(b[3..]);
    }
  }

  lemma OctetsOfSextets(a: byte, b: byte, c: byte)
    ensures var x := Sextets(a, b, c); Octets(x[0], x[1], x[2], x[3]) == [a, b, c]
  {
    hide Octets, Sextets;
    SextetsParts(a, b, c);
    OctetsOf(a / 4, a % 4, b / 16, b % 16, c / 64, c % 64);
  }

  lemma SextetsOfOctets(p: sextet, q: sextet, r: sextet, s: sextet)
    ensures var o := Octets(p, q, r, s); Sextets(o[0], o[1], o[2]) == [p, q, r, s]
  {
    hide Octets, Sextets;
    OctetsParts(p, q, r, s);
    SextetsOf(p, q / 16, q % 16, r / 4, r % 4, s);
  }

  lemma {:induction false} SpellEncoded(b: bytes)
    ensures Spell(EncodedSextets(b)) == b
  {
    hide Octets, Sextets;
    if |b| == 1 {
      OctetsOfSextets(b[0], 0, 0);
      TwoSextets(b[0]);
    } else if |b| == 2 {
      OctetsOfSextets(b[0], b[1], 0);
      ThreeSextets(b[0], b[1]);
    } else if 3 <= |b| {
      SpellEncoded(b[3..]);
      OctetsOfSextets(b[0], b[1], b[2]);
      var x := Sextets(b[0], b[1], b[2]);
      assert (x + EncodedSextets(b[3..]))[4..] == EncodedSextets(b[3..]);
    }
  }

  lemma TwoSextets(a: byte)
    ensures var x := Sextets(a, 0, 0); x[2] == 0 && x[3] == 0
  {
    SextetsParts(a, 0, 0);
  }

  lemma ThreeSextets(a: byte, b: byte)
    ensures Sextets(a, b, 0)[3] == 0
  {
    SextetsParts(a, b, 0);
  }

  lemma {:induction false} BodyLengthIs(s: bytes, k: nat)
    requires k <= |s| && (forall i :: 0 <= i < k ==> s[i] != PAD) && (k < |s| ==> s[k] == PAD)
    ensures BodyLength(s) == k
  {
    if 0 < k {
      BodyLengthIs(s[1..], k - 1);
    }
  }

  lemma ValuesOfLetters(x: seq<sextet>, v: Variant)
    ensures AllInAlphabet(Letters(x, v), v) && Values(Letters(x, v), v) == x
    ensures forall i :: 0 <= i < |x| ==> Letters(x, v)[i] != PAD
  {
    forall i | 0 <= i < |x| ensures Letters(x, v)[i] != PAD && Value(Letters(x, v)[i], v) == x[i] {
      ValueOfLetter(x[i], v);
    }
  }

  /** Decoding undoes encoding, and every encoding is well formed. */
  lemma DecodeEncode(b: bytes, v: Variant)
    ensures WellFormed(Encode(b, v), v) && Decode(Encode(b, v), v) == b
  {
    hide Encode, EncodedSextets, Spell, Letters, Letter, Value, BodyLength;
    var x := EncodedSextets(b);
    var e, t, pad := Encode(b, v), Letters(x, v), Padding(PadCount(|b|), v);
    EncodeIsSextets(b, v);
    EncodedSextetsLength(b);
    ValuesOfLetters(x, v);
    forall i | 0 <= i < |t| ensures e[i] != PAD {
      assert e[i] == t[i];
    }
    BodyLengthIs(e, |t|);
    assert e[..|t|] == t && e[|t|..] == pad;
    SpellEncoded(b);
  }

  // ----- The other round trip -----

  /** The bits of the last character that decoding drops. */
  ghost predicate TrailingBitsZero(x: seq<sextet>) {
    if |x| % 4 == 2 then x[|x| - 1] % 16 == 0
    else if |x| % 4 == 3 then x[|x| - 1] % 4 == 0
    else true
  }

  lemma TwoSpelling(x: seq<sextet>)
    requires |x| == 2
    ensures |Spell(x)| == 1 && EncodedSextets(Spell(x)) == [x[0], x[1] / 16 * 16]
  {
    hide Octets, Sextets;
    OctetsParts(x[0], x[1], 0, 0);
    SextetsOf(x[0], x[1] / 16, 0, 0, 0, 0);
  }

  lemma ThreeSpelling(x: seq<sextet>)
    requires |x| == 3
    ensures |Spell(x)| == 2 && EncodedSextets(Spell(x)) == [x[0], x[1], x[2] / 4 * 4]
  {
    hide Octets, Sextets;
    OctetsParts(x[0], x[1], x[2], 0);
    SextetsOf(x[0], x[1] / 16, x[1] % 16, x[2] / 4, 0, 0);
  }

  lemma ShortSpelling(x: seq<sextet>)
    requires |x| < 4 && |x| != 1
    ensures EncodedSextets(Spell(x)) == x <==> TrailingBitsZero(x)
    ensures |EncodedSextets(Spell(x))| == |x|
  {
    hide Spell, EncodedSextets;
    if |x| == 2 {
      TwoSpelling(x);
    } else if |x| == 3 {
      ThreeSpelling(x);
    } else {
      NothingSpelled();
    }
  }

  lemma NothingSpelled()
    ensures EncodedSextets(Spell([])) == []
  {
  }

  lemma EncodedSextetsStep(o: bytes, rest: bytes)
    requires |o| == 3
    ensures EncodedSextets(o + rest) == Sextets(o[0], o[1], o[2]) + EncodedSextets(rest)
  {
    hide Sextets;
    assert (o + rest)[3..] == rest;
  }

  lemma TrailingBitsStep(x: seq<sextet>)
    requires 4 <= |x|
    ensures TrailingBitsZero(x) <==> TrailingBitsZero(x[4..])
  {
    LessFour(|x|);
    if |x| > 4 {
      assert x[|x| - 1] == x[4..][|x| - 5];
    }
  }

  lemma {:induction false} EncodedSpelling(x: seq<sextet>)
    requires |x| % 4 != 1
    ensures EncodedSextets(Spell(x)) == x <==> TrailingBitsZero(x)
    ensures |EncodedSextets(Spell(x))| == |x|
  {
    hide Octets, Sextets, TrailingBitsZero, EncodedSextets;
    if |x| < 4 {
      ShortSpelling(x);
    } else {
      LessFour(|x|);
      EncodedSpelling(x[4..]);
      var o, rest := Octets(x[0], x[1], x[2], x[3]), Spell(x[4..]);
      EncodedSextetsStep(o, rest);
      SextetsOfOctets(x[0], x[1], x[2], x[3]);
      TrailingBitsStep(x);
      FourThenSame([x[0], x[1], x[2], x[3]], EncodedSextets(rest), x);
    }
  }

  lemma FourThenSame(a: seq<sextet>, b: seq<sextet>, x: seq<sextet>)
    requires |a| == 4 <= |x| && (forall i :: 0 <= i < 4 ==> a[i] == x[i])
    ensures a + b == x <==> b == x[4..]
  {
    if a + b == x {
      assert (a + b)[4..] == b;
    }
    if b == x[4..] {
      assert a + b == x;
    }
  }

  ghost predicate Canonical(s: bytes, v: Variant)
    requires WellFormed(s, v)
  {
    TrailingBitsZero(Values(s[..BodyLength(s)], v))
  }

  lemma LettersOfValues(s: bytes, v: Variant)
    requires AllInAlphabet(s, v)
    ensures Letters(Values(s, v), v) == s
  {
    forall i | 0 <= i < |s| ensures Letters(Values(s, v), v)[i] == s[i] {
      LetterOfValue(s[i], v);
    }
  }

  lemma LettersInjective(x: seq<sextet>, y: seq<sextet>, v: Variant)
    requires Letters(x, v) == Letters(y, v)
    ensures x == y
  {
    ValuesOfLetters(x, v);
    ValuesOfLetters(y, v);
  }

  /** Encoding undoes decoding exactly when the bits that decoding drops are zero. */
  lemma EncodeDecode(s: bytes, v: Variant)
    requires WellFormed(s, v)
    ensures Encode(Decode(s, v), v) == s <==> Canonical(s, v)
  {
    hide Encode, EncodedSextets, Spell, Letters, Letter, Value, BodyLength, TrailingBitsZero, Padding;
    var k := BodyLength(s);
    var body, x := s[..k], Values(s[..k], v);
    var b := Spell(x);
    var y := EncodedSextets(b);
    SpellLength(x);
    EncodedSpelling(x);
    EncodeIsSextets(b, v);
    LettersOfValues(body, v);
    assert s == body + s[k..];
    PaddingIs(s, v);
    if Letters(y, v) + s[k..] == body + s[k..] {
      assert (Letters(y, v) + s[k..])[..k] == Letters(y, v) && (body + s[k..])[..k] == body;
      LettersInjective(x, y, v);
    }
  }

  /** "QR==" decodes to the one byte that "QQ==" encodes. */
  lemma DroppedBitsAreLost()
    ensures var s := [81, 82, PAD, PAD]; WellFormed(s, Standard) && Encode(Decode(s, Standard), Standard) != s
  {
    var s := [81, 82, PAD, PAD];
    TwoThenPadding(s);
    assert Values(s[..2], Standard) == [16, 17];
    EncodeDecode(s, Standard);
  }

  lemma TwoThenPadding(s: bytes)
    requires |s| == 4 && s[0] != PAD && s[1] != PAD && s[2] == s[3] == PAD
    ensures BodyLength(s) == 2
  {
    BodyLengthIs(s, 2);
  }

  /** The bytes that `k` sextets spell. */
  function SpelledLength(k: nat): nat {
    k / 4 * 3 + (if k % 4 == 0 then 0 else k % 4 - 1)
  }

  lemma PadCountOf(k: nat)
    requires k % 4 != 1
    ensures PadCount(SpelledLength(k)) == if k % 4 == 0 then 0 else 4 - k % 4
  {
    var q, r := k / 4, k % 4;
    assert (q * 3) % 3 == 0;
  }

  lemma PadToFour(k: nat, n: nat)
    requires n % 4 == 0 && k <= n <= k + 2
    ensures k % 4 != 1 && n - k == if k % 4 == 0 then 0 else 4 - k % 4
  {
    var q, r := k / 4, k % 4;
  }

  lemma PaddingIs(s: bytes, v: Variant)
    requires WellFormed(s, v)
    ensures var k := BodyLength(s);
            k % 4 != 1 && Padding(PadCount(SpelledLength(k)), v) == s[k..]
  {
    hide PadCount, SpelledLength;
    var k := BodyLength(s);
    if !IsRaw(v) {
      PadToFour(k, |s|);
      PadCountOf(k);
    }
  }
}
