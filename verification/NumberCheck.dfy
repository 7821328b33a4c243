/** The number check run over a collected token, against the number grammar. */
module NumberCheck {
  import opened Bytes
  import opened Grammar

  /** Where the digits from `i` end. */
  ghost function DigitsEnd(s: bytes, i: nat): (j: nat)
    requires i <= |s|
    ensures i <= j <= |s| && AllDigits(s[i..j]) && (j < |s| ==> !IsDigit(s[j]))
    decreases |s| - i
  {
    if i < |s| && IsDigit(s[i]) then
      var j := DigitsEnd(s, i + 1);
      assert s[i..j] == [s[i]] + s[i + 1..j];
      j
    else i
  }

  lemma {:induction false} DigitsEndIs(s: bytes, i: nat, d: bytes)
    requires At(s, i, d) && AllDigits(d) && (i + |d| < |s| ==> !IsDigit(s[i + |d|]))
    ensures DigitsEnd(s, i) == i + |d|
    decreases |d|
  {
    if d != [] {
      AtIndex(s, i, d, 0);
      AtConcat(s, i, [d[0]], d[1..]);
      assert d == [d[0]] + d[1..];
      DigitsEndIs(s, i + 1, d[1..]);
    }
  }

  method SkipDigits(s: bytes, i: nat) returns (j: nat)
    requires i <= |s|
    ensures j == DigitsEnd(s, i)
  {
    j := i;
    while j < |s| && IsDigit(s[j])
      invariant i <= j <= |s| && DigitsEnd(s, j) == DigitsEnd(s, i)
    {
      j := j + 1;
    }
  }

  // ----- The parts of a token, each ending where the check leaves it -----

  ghost predicate WholeEnds(s: bytes, i: nat, j: nat) {
    i < |s| && (if s[i] == ZERO then j == i + 1 && (j < |s| ==> !IsDigit(s[j])) else IsDigit(s[i]) && j == DigitsEnd(s, i))
  }

  ghost predicate FractionEnds(s: bytes, i: nat, j: nat) {
    if i < |s| && s[i] == POINT then i + 1 < |s| && IsDigit(s[i + 1]) && j == DigitsEnd(s, i + 1) else j == i
  }

  ghost function SignEnd(s: bytes, i: nat): nat {
    if i < |s| && (s[i] == PLUS || s[i] == MINUS) then i + 1 else i
  }

  ghost predicate ExponentEnds(s: bytes, i: nat, j: nat) {
    if i < |s| && (s[i] == 101 || s[i] == 69) then
      var k := SignEnd(s, i + 1);
      k < |s| && IsDigit(s[k]) && j == DigitsEnd(s, k)
    else j == i
  }

  ghost function MinusEnd(s: bytes): nat {
    if s != [] && s[0] == MINUS then 1 else 0
  }

  ghost predicate Splits(s: bytes, i: nat, j: nat) {
    i <= |s| && j <= |s| && WholeEnds(s, MinusEnd(s), i) && FractionEnds(s, i, j) && ExponentEnds(s, j, |s|)
  }

  lemma WholeTree(s: bytes, m: nat, i: nat)
    requires i <= |s| && WholeEnds(s, m, i)
    ensures m < i && AllDigits(s[m..i]) && (s[m] == ZERO ==> i == m + 1)
  {
  }

  lemma FractionTree(s: bytes, i: nat, j: nat) returns (digits: bytes)
    requires i <= |s| && j <= |s| && FractionEnds(s, i, j)
    ensures i <= j && AllDigits(digits) && FractionText(digits) == s[i..j]
  {
    if i < |s| && s[i] == POINT {
      digits := s[i + 1..j];
      assert s[i..j] == [POINT] + digits;
    } else {
      digits := [];
    }
  }

  /** A split token has a number as its tree. */
  lemma SplitIsNumber(s: bytes, i: nat, j: nat)
    requires Splits(s, i, j)
    ensures IsNumber(s)
  {
    var m := MinusEnd(s);
    WholeTree(s, m, i);
    var fraction := FractionTree(s, i, j);
    var e := ExponentTree(s, j);
    hide WholeEnds, FractionEnds, ExponentEnds, NumberText, DigitsEnd, FractionText, ExponentText, AllDigits;
    var n := Number(m == 1, s[m..i], fraction, e);
    FourPieces(s, m, i, j, n);
  }

  lemma FourPieces(s: bytes, m: nat, i: nat, j: nat, n: Number)
    requires m == MinusEnd(s) <= i <= j <= |s|
    requires n.minus == (m == 1) && n.whole == s[m..i] && FractionText(n.fraction) == s[i..j]
    requires ExponentText(n.exponent) == s[j..]
    ensures NumberText(n) == s
  {
    hide FractionText, ExponentText;
    assert s[..m] == if m == 1 then [MINUS] else [];
    assert s[..m] + s[m..i] == s[..i];
    assert s[..i] + s[i..j] == s[..j];
    assert s[..j] + s[j..] == s;
  }

  lemma ExponentTree(s: bytes, j: nat) returns (e: Exponent)
    requires j <= |s| && ExponentEnds(s, j, |s|)
    ensures ExponentText(e) == s[j..]
    ensures e.Exponent? ==> (e.mark == 101 || e.mark == 69)
                            && (e.sign == [] || e.sign == [PLUS] || e.sign == [MINUS])
                            && e.digits != [] && AllDigits(e.digits)
  {
    if j == |s| {
      e := NoExponent;
    } else {
      var k := SignEnd(s, j + 1);
      e := Exponent(s[j], s[j + 1..k], s[k..]);
      assert s[k..|s|] == s[k..];
      assert s[j..] == [s[j]] + s[j + 1..k] + s[k..];
    }
  }

  /** The text of a number splits at its own parts. */
  lemma NumberSplits(n: Number) returns (i: nat, j: nat)
    requires NumberWellFormed(n)
    ensures Splits(NumberText(n), i, j)
  {
    hide NumberText, ExponentEnds, WholeEnds, FractionEnds, DigitsEnd, ExponentText, FractionText, AllDigits, NumberWellFormed;
    var s := NumberText(n);
    var sign := if n.minus then [MINUS] else [];
    var m := |sign|;
    var f, e := FractionText(n.fraction), ExponentText(n.exponent);
    i := m + |n.whole|;
    j := i + |f|;
    NumberParts(n);
    NumberPieces(sign, n.whole, f, e);
    FirstDigit(n.whole);
    WholeSplits(s, m, n.whole);
    FractionSplits(s, i, n.fraction);
    if e != [] {
      ExponentSplits(s, j, n.exponent);
    } else {
      NoExponentSplits(s);
    }
  }

  /** What a number tree consists of. */
  lemma NumberParts(n: Number)
    requires NumberWellFormed(n)
    ensures NumberText(n) == (if n.minus then [MINUS] else []) + n.whole + FractionText(n.fraction) + ExponentText(n.exponent)
    ensures n.whole != [] && AllDigits(n.whole) && (n.whole[0] == ZERO ==> |n.whole| == 1) && AllDigits(n.fraction)
    ensures FractionText(n.fraction) == [] <==> n.fraction == []
    ensures n.fraction != [] ==> FractionText(n.fraction)[0] == POINT
    ensures ExponentText(n.exponent) == [] <==> n.exponent.NoExponent?
    ensures var e := n.exponent;
            e.Exponent? ==>
              && ExponentText(e)[0] == e.mark && (e.mark == 101 || e.mark == 69)
              && (e.sign == [] || e.sign == [PLUS] || e.sign == [MINUS]) && e.digits != [] && AllDigits(e.digits)
  {
    hide AllDigits;
  }

  lemma NumberPieces(sign: bytes, whole: bytes, f: bytes, e: bytes)
    requires whole != []
    ensures var s := sign + whole + f + e;
            var m := |sign|;
            var i := m + |whole|;
            var j := i + |f|;
            && s[m..i] == whole && s[i..j] == f && s[j..] == e && s[m] == whole[0]
            && (sign != [] ==> s[0] == sign[0])
            && (i < |s| ==> s[i] == if f != [] then f[0] else e[0])
            && (j < |s| ==> s[j] == e[0])
  {
  }

  lemma NoExponentSplits(s: bytes)
    ensures ExponentEnds(s, |s|, |s|)
  {
  }

  lemma WholeSplits(s: bytes, m: nat, whole: bytes)
    requires m + |whole| <= |s| && s[m..m + |whole|] == whole
    requires whole != [] && AllDigits(whole) && (whole[0] == ZERO ==> |whole| == 1) && s[m] == whole[0]
    requires m + |whole| < |s| ==> !IsDigit(s[m + |whole|])
    ensures WholeEnds(s, m, m + |whole|)
  {
    DigitsEndIs(s, m, whole);
  }

  lemma FractionSplits(s: bytes, i: nat, digits: bytes)
    requires var f := FractionText(digits); i + |f| <= |s| && s[i..i + |f|] == f
    requires AllDigits(digits)
    requires var j := i + |FractionText(digits)|; j < |s| ==> !IsDigit(s[j]) && (digits == [] ==> s[j] != POINT)
    ensures FractionEnds(s, i, i + |FractionText(digits)|)
  {
    if digits != [] {
      var f := FractionText(digits);
      assert s[i] == s[i..i + |f|][0] && s[i + 1] == s[i..i + |f|][1];
      assert s[i + 1..i + |f|] == s[i..i + |f|][1..] == digits;
      DigitsEndIs(s, i + 1, digits);
    }
  }

  lemma ExponentSplits(s: bytes, j: nat, e: Exponent)
    requires e.Exponent? && j <= |s| && s[j..] == ExponentText(e)
    requires (e.mark == 101 || e.mark == 69) && (e.sign == [] || e.sign == [PLUS] || e.sign == [MINUS])
    requires e.digits != [] && AllDigits(e.digits)
    ensures ExponentEnds(s, j, |s|)
  {
    hide DigitsEnd, AllDigits, ExponentText;
    var t := ExponentText(e);
    var m := 1 + |e.sign|;
    ExponentPieces(e);
    assert s[j] == s[j..][0] && s[j + 1] == s[j..][1] && s[j + m] == s[j..][m];
    assert s[j + m..j + m + |e.digits|] == s[j..][m..] == e.digits;
    FirstDigit(e.digits);
    DigitsEndIs(s, j + m, e.digits);
  }

  lemma ExponentPieces(e: Exponent)
    requires e.Exponent? && (e.sign == [] || e.sign == [PLUS] || e.sign == [MINUS]) && e.digits != []
    ensures var t, m := ExponentText(e), 1 + |e.sign|;
            && |t| == m + |e.digits| && t[0] == e.mark && t[1] == (if e.sign != [] then e.sign[0] else e.digits[0])
            && t[m..] == e.digits && t[m] == e.digits[0]
  {
  }

  lemma FirstDigit(digits: bytes)
    requires digits != [] && AllDigits(digits)
    ensures IsDigit(digits[0])
  {
  }

  lemma SplitsExactlyNumbers(s: bytes)
    ensures IsNumber(s) <==> exists i, j :: Splits(s, i, j)
  {
    if IsNumber(s) {
      var n :| NumberWellFormed(n) && NumberText(n) == s;
      var i, j := NumberSplits(n);
    }
    forall i, j | Splits(s, i, j) ensures IsNumber(s) {
      SplitIsNumber(s, i, j);
    }
  }

  method WholePart(s: bytes, i: nat) returns (ok: bool, j: nat)
    requires i <= |s|
    ensures j <= |s| && (ok <==> exists k :: WholeEnds(s, i, k)) && (ok ==> WholeEnds(s, i, j))
  {
    j := i;
    if i == |s| {
      return false, j;
    }
    if s[i] == ZERO {
      j := i + 1;
      ok := !(j < |s| && IsDigit(s[j]));
      assert ok ==> WholeEnds(s, i, j);
    } else if !IsDigit(s[i]) {
      ok := false;
    } else {
      j := SkipDigits(s, i);
      ok := true;
      assert WholeEnds(s, i, j);
    }
  }

  method FractionPart(s: bytes, i: nat) returns (ok: bool, j: nat)
    requires i <= |s|
    ensures j <= |s| && (ok <==> exists k :: FractionEnds(s, i, k)) && (ok ==> FractionEnds(s, i, j))
  {
    j := i;
    ok := true;
    if i < |s| && s[i] == POINT {
      if i + 1 == |s| || !IsDigit(s[i + 1]) {
        return false, j;
      }
      j := SkipDigits(s, i + 1);
    }
    assert FractionEnds(s, i, j);
  }

  method ExponentPart(s: bytes, i: nat) returns (ok: bool, j: nat)
    requires i <= |s|
    ensures j <= |s| && (ok <==> exists k :: ExponentEnds(s, i, k)) && (ok ==> ExponentEnds(s, i, j))
  {
    j := i;
    ok := true;
    if i < |s| && (s[i] == 101 || s[i] == 69) {
      var k := i + 1;
      if k < |s| && (s[k] == PLUS || s[k] == MINUS) {
        k := k + 1;
      }
      if k == |s| || !IsDigit(s[k]) {
        return false, j;
      }
      j := SkipDigits(s, k);
    }
    assert ExponentEnds(s, i, j);
  }

  method IsValidJsonNumber(s: bytes) returns (ok: bool)
    ensures ok <==> IsNumber(s)
  {
    SplitsExactlyNumbers(s);
    if |s| == 0 {
      return false;
    }
    var start := if s[0] == MINUS then 1 else 0;
    var i, j, k;
    ok, i := WholePart(s, start);
    if !ok {
      return false;
    }
    ok, j := FractionPart(s, i);
    if !ok {
      return false;
    }
    ok, k := ExponentPart(s, j);
    if !ok {
      return false;
    }
    ok := k == |s|;
    assert ok ==> Splits(s, i, j);
  }
}
