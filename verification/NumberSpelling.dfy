/** Numbers by an automaton that reads one character at a time: the partner of the
    grammar's number trees. */
module NumberSpellings {
  import opened Bytes
  import opened Grammar

  datatype State = Start | Minus | Zero | Whole | Point | Fraction | Mark | Sign | Power | Refused

  predicate IsDecimal(b: byte) {
    '0' as int <= b <= '9' as int
  }

  predicate IsMark(b: byte) {
    b == 'e' as int || b == 'E' as int
  }

  function Read(st: State, b: byte): State {
    match st
    case Start => if b == '-' as int then Minus else if b == '0' as int then Zero else if IsDecimal(b) then Whole else Refused
    case Minus => if b == '0' as int then Zero else if IsDecimal(b) then Whole else Refused
    case Zero => if b == '.' as int then Point else if IsMark(b) then Mark else Refused
    case Whole => if IsDecimal(b) then Whole else if b == '.' as int then Point else if IsMark(b) then Mark else Refused
    case Point => if IsDecimal(b) then Fraction else Refused
    case Fraction => if IsDecimal(b) then Fraction else if IsMark(b) then Mark else Refused
    case Mark => if b == '+' as int || b == '-' as int then Sign else if IsDecimal(b) then Power else Refused
    case Sign | Power => if IsDecimal(b) then Power else Refused
    case Refused => Refused
  }

  function ReadAll(st: State, s: bytes): State
    decreases |s|
  {
    if s == [] then st else ReadAll(Read(st, s[0]), s[1..])
  }

  predicate Ends(st: State) {
    st == Zero || st == Whole || st == Fraction || st == Power
  }

  lemma {:induction false} ReadConcat(st: State, a: bytes, b: bytes)
    ensures ReadAll(st, a + b) == ReadAll(ReadAll(st, a), b)
    decreases |a|
  {
    hide Read;
    if a == [] {
      assert a + b == b;
    } else {
      assert (a + b)[1..] == a[1..] + b && (a + b)[0] == a[0];
      ReadConcat(Read(st, a[0]), a[1..], b);
    }
  }

  /** Digits lead from a state to the one they repeat. */
  lemma {:induction false} ReadDigits(st: State, d: bytes, to: State)
    requires AllDigits(d) && d != []
    requires (st == to && (to == Whole || to == Fraction || to == Power)) || (st == Point && to == Fraction) || ((st == Mark || st == Sign) && to == Power)
    ensures ReadAll(st, d) == to
    decreases |d|
  {
    if d[1..] != [] {
      ReadDigits(to, d[1..], to);
    }
  }

  lemma ReadExponent(e: Exponent, st: State)
    requires st == Zero || st == Whole || st == Fraction
    requires e.Exponent? ==> (e.mark == 101 || e.mark == 69) && (e.sign == [] || e.sign == [PLUS] || e.sign == [MINUS])
                             && e.digits != [] && AllDigits(e.digits)
    ensures Ends(ReadAll(st, ExponentText(e)))
  {
    if e.Exponent? {
      ReadConcat(st, [e.mark] + e.sign, e.digits);
      ReadConcat(st, [e.mark], e.sign);
      assert [e.mark][1..] == [] && (e.sign != [] ==> e.sign[1..] == []);
      assert ReadAll(st, [e.mark]) == ReadAll(Mark, []);
      var after := ReadAll(Mark, e.sign);
      assert e.sign != [] ==> after == ReadAll(Sign, []);
      ReadDigits(after, e.digits, Power);
    }
  }

  lemma ReadFraction(digits: bytes, st: State)
    requires AllDigits(digits) && (st == Zero || st == Whole)
    ensures var to := ReadAll(st, FractionText(digits)); to == Zero || to == Whole || to == Fraction
  {
    if digits != [] {
      ReadConcat(st, [POINT], digits);
      assert [POINT][1..] == [];
      assert ReadAll(st, [POINT]) == ReadAll(Point, []);
      ReadDigits(Point, digits, Fraction);
    }
  }

  lemma ReadWhole(w: bytes, st: State)
    requires w != [] && AllDigits(w) && (w[0] == ZERO ==> |w| == 1) && (st == Start || st == Minus)
    ensures var to := ReadAll(st, w); to == Zero || to == Whole
  {
    if w[1..] != [] {
      ReadDigits(Whole, w[1..], Whole);
    }
  }

  lemma NumberIsRead(n: Number)
    requires NumberWellFormed(n)
    ensures Ends(ReadAll(Start, NumberText(n)))
  {
    hide Read;
    var m: bytes := if n.minus then [MINUS] else [];
    var st := ReadAll(Start, m);
    assert st == if n.minus then Minus else Start by { ReadMinus(); }
    ReadWhole(n.whole, st);
    var a := ReadAll(st, n.whole);
    ReadFraction(n.fraction, a);
    ReadExponent(n.exponent, ReadAll(a, FractionText(n.fraction)));
    ReadConcat(Start, m, n.whole);
    ReadConcat(Start, m + n.whole, FractionText(n.fraction));
    ReadConcat(Start, m + n.whole + FractionText(n.fraction), ExponentText(n.exponent));
  }

  lemma ReadMinus()
    ensures ReadAll(Start, [MINUS]) == Minus && ReadAll(Start, []) == Start
  {
    assert [MINUS][1..] == [];
    assert ReadAll(Start, [MINUS]) == ReadAll(Minus, []);
  }

  // ----- What is accepted has a tree -----

  ghost predicate ExponentOk(e: Exponent) {
    e.Exponent? ==> (e.mark == 101 || e.mark == 69) && (e.sign == [] || e.sign == [PLUS] || e.sign == [MINUS])
                    && e.digits != [] && AllDigits(e.digits)
  }

  lemma {:induction false} RefusedStays(s: bytes)
    ensures ReadAll(Refused, s) == Refused
    decreases |s|
  {
    if s != [] {
      RefusedStays(s[1..]);
    }
  }

  /** Digits, and what follows them. */
  lemma {:induction false} SplitDigits(st: State, s: bytes) returns (d: bytes, rest: bytes)
    requires (st == Whole || st == Fraction || st == Power) && Ends(ReadAll(st, s))
    ensures s == d + rest && AllDigits(d)
    ensures rest != [] ==> !IsDecimal(rest[0]) && Read(st, rest[0]) != Refused && Ends(ReadAll(Read(st, rest[0]), rest[1..]))
    decreases |s|
  {
    d, rest := [], s;
    if s != [] {
      RefusedStays(s[1..]);
      if IsDecimal(s[0]) {
        d, rest := SplitDigits(st, s[1..]);
        d := [s[0]] + d;
      }
    }
  }

  lemma PowerParts(s: bytes, st: State)
    requires (st == Sign || st == Power) && Ends(ReadAll(st, s))
    ensures AllDigits(s) && (st == Sign ==> s != [])
  {
    if s != [] {
      RefusedStays(s[1..]);
      var d, rest := SplitDigits(Power, s[1..]);
      assert rest == [] && d == s[1..];
      assert s == [s[0]] + d;
    }
  }

  lemma MarkParts(mark: byte, s: bytes) returns (e: Exponent)
    requires IsMark(mark) && Ends(ReadAll(Mark, s))
    ensures ExponentOk(e) && ExponentText(e) == [mark] + s
  {
    assert s != [];
    RefusedStays(s[1..]);
    if IsDecimal(s[0]) {
      PowerParts(s[1..], Power);
      assert s == [s[0]] + s[1..];
      e := Exponent(mark, [], s);
      assert [mark] + [] + s == [mark] + s;
    } else {
      PowerParts(s[1..], Sign);
      e := Exponent(mark, [s[0]], s[1..]);
      assert s == [s[0]] + s[1..] && [mark] + [s[0]] + s[1..] == [mark] + ([s[0]] + s[1..]);
    }
  }

  lemma FractionParts(s: bytes) returns (f: bytes, e: Exponent)
    requires Ends(ReadAll(Point, s))
    ensures f != [] && AllDigits(f) && ExponentOk(e) && s == f + ExponentText(e)
  {
    RefusedStays(s[1..]);
    var d, rest := SplitDigits(Fraction, s[1..]);
    f := [s[0]] + d;
    assert s == [s[0]] + s[1..] && [s[0]] + (d + rest) == f + rest;
    e := NoExponent;
    if rest != [] {
      e := MarkParts(rest[0], rest[1..]);
      assert rest == [rest[0]] + rest[1..];
    }
  }

  /** What may follow the whole part: nothing, a fraction, an exponent or both. */
  lemma TailParts(s: bytes) returns (f: bytes, e: Exponent)
    requires s != [] ==> (s[0] == POINT && Ends(ReadAll(Point, s[1..]))) || (IsMark(s[0]) && Ends(ReadAll(Mark, s[1..])))
    ensures AllDigits(f) && ExponentOk(e) && s == FractionText(f) + ExponentText(e)
  {
    hide Read, ReadAll, Ends;
    f, e := [], NoExponent;
    if s != [] {
      assert s == [s[0]] + s[1..];
      if s[0] == POINT {
        f, e := FractionParts(s[1..]);
        assert [POINT] + (f + ExponentText(e)) == [POINT] + f + ExponentText(e);
      } else {
        e := MarkParts(s[0], s[1..]);
      }
    }
  }

  lemma WholeParts(s: bytes, st: State) returns (w: bytes, f: bytes, e: Exponent)
    requires (st == Start || st == Minus) && s != [] && s[0] != MINUS && Ends(ReadAll(st, s))
    ensures w != [] && AllDigits(w) && (w[0] == ZERO ==> |w| == 1)
    ensures AllDigits(f) && ExponentOk(e) && s == w + (FractionText(f) + ExponentText(e))
  {
    var b, rest := s[0], s[1..];
    assert s == [b] + rest;
    RefusedStays(rest);
    if b == ZERO {
      w := [b];
      assert ReadAll(Zero, rest) == ReadAll(st, s);
      if rest != [] {
        RefusedStays(rest[1..]);
        assert ReadAll(Zero, rest) == ReadAll(Read(Zero, rest[0]), rest[1..]);
      }
    } else {
      var d, more := SplitDigits(Whole, rest);
      w := [b] + d;
      assert [b] + (d + more) == w + more;
      rest := more;
    }
    f, e := TailParts(rest);
  }

  /** A sign, and the rest of a number. */
  lemma SplitMinus(token: bytes) returns (minus: bool, rest: bytes)
    requires Ends(ReadAll(Start, token))
    ensures token == (if minus then [MINUS] else []) + rest && rest != [] && rest[0] != MINUS
    ensures Ends(ReadAll(if minus then Minus else Start, rest))
  {
    minus := token[0] == MINUS;
    rest := if minus then token[1..] else token;
    if minus {
      assert token == [MINUS] + rest;
      assert ReadAll(Start, token) == ReadAll(Minus, rest);
      assert rest == [] ==> ReadAll(Minus, rest) == Minus;
      if rest != [] {
        assert ReadAll(Minus, rest) == ReadAll(Read(Minus, rest[0]), rest[1..]);
        RefusedStays(rest[1..]);
      }
    } else {
      assert token == [] + rest;
    }
  }

  lemma NumberIsBuilt(token: bytes)
    requires Ends(ReadAll(Start, token))
    ensures IsNumber(token)
  {
    hide ReadAll, Ends, FractionText, ExponentText;
    var minus, rest := SplitMinus(token);
    var w, f, e := WholeParts(rest, if minus then Minus else Start);
    var m: bytes := if minus then [MINUS] else [];
    assert m + (w + (FractionText(f) + ExponentText(e))) == m + w + FractionText(f) + ExponentText(e);
    assert NumberWellFormed(Number(minus, w, f, e)) && NumberText(Number(minus, w, f, e)) == token;
  }

  /** A token is a number exactly when the automaton accepts it. */
  lemma NumbersAreRead(token: bytes)
    ensures IsNumber(token) <==> Ends(ReadAll(Start, token))
  {
    hide ReadAll, NumberWellFormed, NumberText;
    if n :| NumberWellFormed(n) && NumberText(n) == token {
      NumberIsRead(n);
    }
    if Ends(ReadAll(Start, token)) {
      NumberIsBuilt(token);
    }
  }
}
