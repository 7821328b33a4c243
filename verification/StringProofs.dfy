/** The string scanner accepts exactly the well-formed strings. */
module StringProofs {
  import opened Bytes
  import opened Grammar
  import opened Scanner

  ghost predicate Fits(maxTotal: nat, q: nat) {
    maxTotal == 0 || q <= maxTotal
  }

  /** Decoded lengths are counted only where surrogates are paired. */
  ghost predicate RulesOk(rules: Rules) {
    rules.paired || (rules.limits.maxString == 0 && rules.limits.maxKey == 0)
  }

  // ----- Whitespace -----

  lemma {:induction false} SkipSpaceIs(s: bytes, p: nat, w: bytes, maxTotal: nat)
    requires At(s, p, w) && AllSpace(w) && Fits(maxTotal, p + |w|)
    requires p + |w| < |s| ==> !IsSpace(s[p + |w|])
    ensures SkipSpace(s, p, maxTotal) == p + |w|
    decreases |w|
  {
    if w != [] {
      AtIndex(s, p, w, 0);
      assert s[p + 1..p + |w|] == s[p..p + |w|][1..];
      SkipSpaceIs(s, p + 1, w[1..], maxTotal);
    }
  }

  lemma {:induction false} SkippedIsSpace(s: bytes, p: nat, maxTotal: nat)
    requires p <= |s|
    ensures AllSpace(s[p..SkipSpace(s, p, maxTotal)])
    ensures SkipSpace(s, p, maxTotal) == p || Fits(maxTotal, SkipSpace(s, p, maxTotal))
    decreases |s| - p
  {
    if ReadAt(s, p, maxTotal).Byte? && IsSpace(s[p]) {
      SkippedIsSpace(s, p + 1, maxTotal);
      var q := SkipSpace(s, p, maxTotal);
      assert s[p..q] == [s[p]] + s[p + 1..q];
    }
  }

  // ----- Hex digits -----

  lemma {:induction false} HexSound(s: bytes, p: nat, n: nat, maxTotal: nat)
    requires ScanHex(s, p, n, maxTotal).Good? && p <= |s| && Fits(maxTotal, p)
    ensures At(s, p, ScanHex(s, p, n, maxTotal).value)
    ensures Fits(maxTotal, p + n)
    decreases n
  {
    if n != 0 {
      HexSound(s, p + 1, n - 1, maxTotal);
      assert s[p..p + n] == [s[p]] + s[p + 1..p + n];
    }
  }

  lemma {:induction false} HexComplete(s: bytes, p: nat, h: bytes, maxTotal: nat)
    requires At(s, p, h) && Fits(maxTotal, p + |h|)
    requires forall i :: 0 <= i < |h| ==> IsHex(h[i])
    ensures ScanHex(s, p, |h|, maxTotal) == Good(h, p + |h|)
    decreases |h|
  {
    if h != [] {
      AtIndex(s, p, h, 0);
      assert s[p + 1..p + |h|] == s[p..p + |h|][1..];
      HexComplete(s, p + 1, h[1..], maxTotal);
      assert h == [h[0]] + h[1..];
    }
  }

  // ----- Units -----

  ghost function UnitText(u: Unit): bytes {
    match u
    case One(i) => ItemText(i)
    case Two(h, l) => ItemText(h) + ItemText(l)
  }

  /** The units that the rules let stand next to any others. */
  ghost predicate UnitOk(u: Unit, paired: bool) {
    match u
    case One(i) => ItemWellFormed(i) && (paired ==> !IsHigh(i) && !IsLow(i))
    case Two(h, l) => paired && IsHigh(h) && IsLow(l)
  }

  lemma UnicodeTextAt(s: bytes, p: nat, h: bytes)
    requires |h| == 4
    ensures At(s, p, ItemText(Unicode(h))) <==>
            p + 6 <= |s| && s[p] == BACKSLASH && s[p + 1] == 117 && At(s, p + 2, h)
  {
    AtConcat(s, p, [BACKSLASH, 117], h);
    if p + 6 <= |s| {
      assert s[p..p + 2] == [s[p], s[p + 1]];
    }
  }

  lemma LowHalfSound(s: bytes, p: nat, high: Item, maxTotal: nat)
    requires ScanLowHalf(s, p, high, maxTotal).Good? && p <= |s|
    ensures var r := ScanLowHalf(s, p, high, maxTotal);
            && r.value.Two? && r.value.high == high && IsLow(r.value.low)
            && At(s, p, ItemText(r.value.low)) && r.next == p + 6 && Fits(maxTotal, r.next)
  {
    HexSound(s, p + 2, 4, maxTotal);
    UnicodeTextAt(s, p, ScanHex(s, p + 2, 4, maxTotal).value);
  }

  lemma LowHalfComplete(s: bytes, p: nat, high: Item, low: Item, maxTotal: nat)
    requires IsLow(low) && At(s, p, ItemText(low)) && Fits(maxTotal, p + 6)
    ensures ScanLowHalf(s, p, high, maxTotal) == Good(Two(high, low), p + 6)
  {
    UnicodeTextAt(s, p, low.hex);
    HexComplete(s, p + 2, low.hex, maxTotal);
  }

  lemma UnicodeSound(s: bytes, p: nat, rules: Rules)
    requires p + 2 <= |s| && s[p] == BACKSLASH && s[p + 1] == 117
    requires ScanUnicode(s, p + 2, rules).Good? && Fits(rules.limits.maxTotal, p + 2)
    ensures var r := ScanUnicode(s, p + 2, rules);
            && UnitOk(r.value, rules.paired) && At(s, p, UnitText(r.value))
            && r.next == p + |UnitText(r.value)| && Fits(rules.limits.maxTotal, r.next)
  {
    var total := rules.limits.maxTotal;
    HexSound(s, p + 2, 4, total);
    var h := Unicode(ScanHex(s, p + 2, 4, total).value);
    UnicodeTextAt(s, p, h.hex);
    if rules.paired && IsHigh(h) {
      LowHalfSound(s, p + 6, h, total);
      var u := ScanLowHalf(s, p + 6, h, total).value;
      AtConcat(s, p, ItemText(h), ItemText(u.low));
    }
  }

  lemma UnitSound(s: bytes, p: nat, rules: Rules)
    requires ScanUnit(s, p, rules).Good? && ReadAt(s, p, rules.limits.maxTotal) != Byte(QUOTE)
    ensures var r := ScanUnit(s, p, rules);
            && UnitOk(r.value, rules.paired) && At(s, p, UnitText(r.value))
            && r.next == p + |UnitText(r.value)| && Fits(rules.limits.maxTotal, r.next)
  {
    if s[p] != BACKSLASH {
      assert s[p..p + 1] == [s[p]];
    } else if IsShortEscape(s[p + 1]) {
      assert s[p..p + 2] == [s[p], s[p + 1]];
    } else {
      UnicodeSound(s, p, rules);
    }
  }

  lemma UnicodeOneComplete(s: bytes, p: nat, i: Item, rules: Rules)
    requires i.Unicode? && UnitOk(One(i), rules.paired) && At(s, p, ItemText(i))
    requires Fits(rules.limits.maxTotal, p + 6)
    ensures p + 2 <= |s| && s[p] == BACKSLASH && s[p + 1] == 117
    ensures ScanUnicode(s, p + 2, rules) == Good(One(i), p + 6)
  {
    hide ScanHex, At, ItemText, HexValue;
    UnicodeTextAt(s, p, i.hex);
    HexComplete(s, p + 2, i.hex, rules.limits.maxTotal);
  }

  lemma UnicodePairComplete(s: bytes, p: nat, high: Item, low: Item, rules: Rules)
    requires rules.paired && IsHigh(high) && IsLow(low) && At(s, p, ItemText(high) + ItemText(low))
    requires Fits(rules.limits.maxTotal, p + 12)
    ensures p + 2 <= |s| && s[p] == BACKSLASH && s[p + 1] == 117
    ensures ScanUnicode(s, p + 2, rules) == Good(Two(high, low), p + 12)
  {
    hide ScanHex, ScanLowHalf, At, HexValue;
    AtConcat(s, p, ItemText(high), ItemText(low));
    UnicodeTextAt(s, p, high.hex);
    LowHalfComplete(s, p + 6, high, low, rules.limits.maxTotal);
    HexComplete(s, p + 2, high.hex, rules.limits.maxTotal);
  }

  lemma UnitComplete(s: bytes, p: nat, u: Unit, rules: Rules)
    requires UnitOk(u, rules.paired) && At(s, p, UnitText(u))
    requires Fits(rules.limits.maxTotal, p + |UnitText(u)|)
    ensures ScanUnit(s, p, rules) == Good(u, p + |UnitText(u)|)
    ensures ReadAt(s, p, rules.limits.maxTotal) != Byte(QUOTE)
  {
    AtIndex(s, p, UnitText(u), 0);
    if u.Two? {
      hide ScanUnicode, At, HexValue;
      UnicodePairComplete(s, p, u.high, u.low, rules);
    } else if u.item.Unicode? {
      hide ScanUnicode, At, HexValue;
      UnicodeOneComplete(s, p, u.item, rules);
    } else if u.item.Escape? {
      AtIndex(s, p, UnitText(u), 1);
    }
  }

  lemma PrependOne(i: Item, c: Chars)
    ensures !IsHigh(i) ==> Decode(Char(i, c)) == DecodeItem(i) + Decode(c)
    ensures !IsHigh(i) && !IsLow(i) ==> (Paired(Char(i, c)) <==> Paired(c))
  {
  }

  lemma PrependTwo(h: Item, l: Item, c: Chars)
    requires IsHigh(h) && IsLow(l)
    ensures Decode(Char(h, Char(l, c))) == Utf8(PairValue(HexValue(h.hex), HexValue(l.hex))) + Decode(c)
    ensures Paired(Char(h, Char(l, c))) <==> Paired(c)
    ensures CharsText(Char(h, Char(l, c))) == ItemText(h) + ItemText(l) + CharsText(c)
    ensures CharsWellFormed(Char(h, Char(l, c))) <==> CharsWellFormed(c)
  {
    hide HexValue, Utf8, PairValue;
    var tail := Char(l, c);
    assert CharsText(Char(h, tail)) == ItemText(h) + CharsText(tail);
    assert CharsText(tail) == ItemText(l) + CharsText(c);
  }

  lemma PrependFacts(u: Unit, c: Chars, paired: bool)
    requires UnitOk(u, paired)
    ensures CharsText(Prepend(u, c)) == UnitText(u) + CharsText(c)
    ensures CharsWellFormed(Prepend(u, c)) <==> CharsWellFormed(c)
    ensures paired ==> Decode(Prepend(u, c)) == UnitBytes(u) + Decode(c)
    ensures paired ==> (Paired(Prepend(u, c)) <==> Paired(c))
  {
    if u.Two? {
      PrependTwo(u.high, u.low, c);
      hide CharsText, ItemText, Decode, Paired, CharsWellFormed, IsHigh, IsLow, Utf8, PairValue, HexValue;
      assert CharsText(Prepend(u, c)) == UnitText(u) + CharsText(c);
    } else {
      PrependOne(u.item, c);
      hide Decode, Paired, IsHigh, IsLow;
      assert CharsText(Prepend(u, c)) == UnitText(u) + CharsText(c);
    }
  }

  /** Splits off the first unit of a well-formed, non-empty string content. */
  lemma FirstUnit(c: Chars, paired: bool) returns (u: Unit, rest: Chars)
    requires c.Char? && CharsWellFormed(c) && (paired ==> Paired(c))
    ensures UnitOk(u, paired) && c == Prepend(u, rest) && rest < c
  {
    if paired && IsHigh(c.item) {
      u, rest := Two(c.item, c.rest.item), c.rest.rest;
    } else {
      u, rest := One(c.item), c.rest;
    }
  }

  // ----- String content -----

  /** What acceptance of string content `c` from `p` to `q` means, `n` bytes of
      the string being decoded before it. */
  ghost predicate CharsAccepted(s: bytes, p: nat, n: nat, limit: nat, rules: Rules, c: Chars, q: nat) {
    && CharsWellFormed(c) && At(s, p, CharsText(c)) && q == p + |CharsText(c)|
    && Fits(rules.limits.maxTotal, q)
    && (rules.paired ==> Paired(c) && (c == Done || !Exceeds(limit, n + |Decode(c)|)))
  }

  lemma AcceptedPrepend(s: bytes, p: nat, n: nat, limit: nat, rules: Rules, u: Unit, c: Chars, q: nat)
    requires UnitOk(u, rules.paired) && At(s, p, UnitText(u))
    requires rules.paired ==> !Exceeds(limit, n + |UnitBytes(u)|)
    requires CharsAccepted(s, p + |UnitText(u)|, n + |UnitBytes(u)|, limit, rules, c, q)
    ensures CharsAccepted(s, p, n, limit, rules, Prepend(u, c), q)
  {
    PrependFacts(u, c, rules.paired);
    AtConcat(s, p, UnitText(u), CharsText(c));
  }

  lemma DoneAccepted(s: bytes, p: nat, n: nat, limit: nat, rules: Rules)
    requires ReadAt(s, p, rules.limits.maxTotal) == Byte(QUOTE)
    ensures ScanChars(s, p, n, limit, rules) == Good(Done, p + 1)
    ensures CharsAccepted(s, p, n, limit, rules, Done, p + 1)
  {
    assert s[p..p + 1] == [s[p]];
  }

  /** One step of the scanner over string content. */
  lemma ScanCharsStep(s: bytes, p: nat, n: nat, limit: nat, rules: Rules) returns (u: Unit, p': nat, c: Chars)
    requires ScanChars(s, p, n, limit, rules).Good? && ReadAt(s, p, rules.limits.maxTotal) != Byte(QUOTE)
    ensures ScanUnit(s, p, rules) == Good(u, p') && p < p' <= |s| && !Exceeds(limit, n + |UnitBytes(u)|)
    ensures ScanChars(s, p', n + |UnitBytes(u)|, limit, rules) == Good(c, ScanChars(s, p, n, limit, rules).next)
    ensures ScanChars(s, p, n, limit, rules).value == Prepend(u, c)
  {
    hide ScanUnit, UnitBytes, Prepend;
    u, p' := ScanUnit(s, p, rules).value, ScanUnit(s, p, rules).next;
    c := ScanChars(s, p', n + |UnitBytes(u)|, limit, rules).value;
  }

  lemma {:induction false} CharsSound(s: bytes, p: nat, n: nat, limit: nat, rules: Rules, c: Chars, q: nat)
    requires ScanChars(s, p, n, limit, rules) == Good(c, q)
    ensures CharsAccepted(s, p, n, limit, rules, c, q)
    decreases |s| - p
  {
    hide *;
    if ReadAt(s, p, rules.limits.maxTotal) == Byte(QUOTE) {
      DoneAccepted(s, p, n, limit, rules);
    } else {
      var u, p', rest := ScanCharsStep(s, p, n, limit, rules);
      UnitSound(s, p, rules);
      CharsSound(s, p', n + |UnitBytes(u)|, limit, rules, rest, q);
      AcceptedPrepend(s, p, n, limit, rules, u, rest, q);
    }
  }

  /** The first unit of accepted content is what the scanner reads first, and
      the rest is accepted after it. */
  lemma AcceptedFirst(s: bytes, p: nat, n: nat, limit: nat, rules: Rules, c: Chars, q: nat)
    returns (u: Unit, rest: Chars)
    requires CharsAccepted(s, p, n, limit, rules, c, q) && c.Char?
    requires rules.paired || limit == 0
    ensures c == Prepend(u, rest) && rest < c
    ensures ReadAt(s, p, rules.limits.maxTotal) != Byte(QUOTE)
    ensures ScanUnit(s, p, rules) == Good(u, p + |UnitText(u)|)
    ensures !Exceeds(limit, n + |UnitBytes(u)|)
    ensures CharsAccepted(s, p + |UnitText(u)|, n + |UnitBytes(u)|, limit, rules, rest, q)
  {
    hide ScanUnit, UnitText, UnitBytes, UnitOk, Prepend, CharsText, Decode, Paired, CharsWellFormed, ReadAt, At;
    u, rest := FirstUnit(c, rules.paired);
    PrependFacts(u, rest, rules.paired);
    AtConcat(s, p, UnitText(u), CharsText(rest));
    UnitComplete(s, p, u, rules);
  }

  lemma ScanPrepend(s: bytes, p: nat, n: nat, limit: nat, rules: Rules, u: Unit, p': nat, c: Chars, q: nat)
    requires ReadAt(s, p, rules.limits.maxTotal) != Byte(QUOTE)
    requires ScanUnit(s, p, rules) == Good(u, p')
    requires !Exceeds(limit, n + |UnitBytes(u)|)
    requires ScanChars(s, p', n + |UnitBytes(u)|, limit, rules) == Good(c, q)
    ensures ScanChars(s, p, n, limit, rules) == Good(Prepend(u, c), q)
  {
    hide ScanUnit, UnitBytes;
  }

  lemma AcceptedDone(s: bytes, p: nat, n: nat, limit: nat, rules: Rules, q: nat)
    requires CharsAccepted(s, p, n, limit, rules, Done, q)
    ensures ScanChars(s, p, n, limit, rules) == Good(Done, q)
  {
    AtIndex(s, p, [QUOTE], 0);
  }

  lemma {:induction false} CharsComplete(s: bytes, p: nat, n: nat, limit: nat, rules: Rules, c: Chars, q: nat)
    requires CharsAccepted(s, p, n, limit, rules, c, q)
    requires rules.paired || limit == 0
    ensures ScanChars(s, p, n, limit, rules) == Good(c, q)
    decreases c
  {
    hide *;
    if c == Done {
      AcceptedDone(s, p, n, limit, rules, q);
    } else {
      var u, rest := AcceptedFirst(s, p, n, limit, rules, c, q);
      CharsComplete(s, p + |UnitText(u)|, n + |UnitBytes(u)|, limit, rules, rest, q);
      ScanPrepend(s, p, n, limit, rules, u, p + |UnitText(u)|, rest, q);
    }
  }

  // ----- UTF-8 -----

  /** The code point that one to four bytes encode (RFC 3629, section 3). */
  function CodePoint(r: bytes): int {
    if |r| == 1 then r[0]
    else if |r| == 2 then (r[0] as int - 0xC0) * 64 + Tail(r[1])
    else if |r| == 3 then ((r[0] as int - 0xE0) * 64 + Tail(r[1])) * 64 + Tail(r[2])
    else if |r| == 4 then (((r[0] as int - 0xF0) * 64 + Tail(r[1])) * 64 + Tail(r[2])) * 64 + Tail(r[3])
    else -1
  }

  /** What a continuation byte adds. */
  function Tail(b: int): int {
    b - 0x80
  }

  lemma SixBits(v: nat)
    ensures v / 4096 == v / 64 / 64 && v / 262144 == v / 64 / 64 / 64
    ensures v == v / 64 * 64 + v % 64 && v / 64 == v / 64 / 64 * 64 + v / 64 % 64
  {
  }

  /** The encoding of a code point determines it, its first byte says how many
      bytes follow, and those are continuation bytes. */
  lemma Utf8RoundTrip(v: nat)
    requires v <= 0x10FFFF
    ensures var r := Utf8(v);
            && CodePoint(r) == v
            && |r| == (if r[0] < 0x80 then 1 else if r[0] < 0xE0 then 2 else if r[0] < 0xF0 then 3 else 4)
            && (forall i :: 1 <= i < |r| ==> 0x80 <= r[i] < 0xC0)
  {
    SixBits(v);
    SixBits(v / 64);
  }
}
