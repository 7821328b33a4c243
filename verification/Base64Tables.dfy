/** Base64 said with the two tables of RFC 4648 (sections 4 and 5) and the bits of
    the input, independently of the arithmetic that the codec uses. */
module Base64Tables {
  import opened Bytes
  import opened Base64

  const CAPITALS: string := "ABCDEFGHIJKLMNOPQRSTUVWXYZ"
  const SMALLS: string := "abcdefghijklmnopqrstuvwxyz"
  const NUMERALS: string := "0123456789"

  const STANDARD_TABLE: string := CAPITALS + SMALLS + NUMERALS + "+/"
  const URL_TABLE: string := CAPITALS + SMALLS + NUMERALS + "-_"

  /** The 64 characters of a variant, by their values. */
  function Table(v: Variant): (r: string)
    ensures |r| == 64
  {
    match v
    case Standard | StandardRaw => STANDARD_TABLE
    case Url | UrlRaw => URL_TABLE
  }

  /** `t` holds `n` characters in a row, from the character code `first` on. */
  ghost predicate Row(t: string, n: nat, first: int) {
    |t| == n && forall i :: 0 <= i < n ==> t[i] as int == first + i
  }

  lemma Rows()
    ensures Row(CAPITALS, 26, 65) && Row(SMALLS, 26, 97) && Row(NUMERALS, 10, 48)
  {
  }

  /** The rows, and two characters of the variant behind them. */
  lemma RowsAreLetters(a: string, b: string, c: string, d: string, n: int, v: Variant)
    requires Row(a, 26, 65) && Row(b, 26, 97) && Row(c, 10, 48) && |d| == 2 && 0 <= n < 64
    requires d[0] as int == Letter(62, v) && d[1] as int == Letter(63, v)
    ensures |a + b + c + d| == 64 && (a + b + c + d)[n] as int == Letter(n, v)
  {
  }

  lemma LetterIsInTable(n: int, v: Variant)
    requires 0 <= n < 64
    ensures Table(v)[n] as int == Letter(n, v)
  {
    hide Row, Letter;
    Rows();
    LastTwo(v);
    RowsAreLetters(CAPITALS, SMALLS, NUMERALS, match v case Standard | StandardRaw => "+/" case Url | UrlRaw => "-_", n, v);
  }

  lemma LastTwo(v: Variant)
    ensures var d := match v case Standard | StandardRaw => "+/" case Url | UrlRaw => "-_";
            |d| == 2 && d[0] as int == Letter(62, v) && d[1] as int == Letter(63, v)
  {
  }

  /** Where a character stands in a table, or the size of the table. */
  ghost function Position(table: string, c: byte): (r: nat)
    ensures r <= |table| && (forall i :: 0 <= i < r ==> table[i] as int != c) && (r < |table| ==> table[r] as int == c)
  {
    if table == "" || table[0] as int == c then 0 else 1 + Position(table[1..], c)
  }

  lemma PositionIsValue(c: byte, v: Variant)
    ensures if InAlphabet(c, v) then Position(Table(v), c) == Value(c, v) else Position(Table(v), c) == 64
  {
    hide Table, Position;
    var p := Position(Table(v), c);
    if p < 64 {
      LetterIsInTable(p, v);
      ValueOfLetter(p, v);
    }
    if InAlphabet(c, v) {
      LetterOfValue(c, v);
      LetterIsInTable(Value(c, v), v);
    }
  }

  // ----- Bits -----

  /** The bits of a byte and of a six-bit value, the most significant first. */
  function BitOf(b: int, width: nat, k: nat): int
    requires k < width <= 8
  {
    match width - 1 - k
    case 0 => b % 2
    case 1 => b / 2 % 2
    case 2 => b / 4 % 2
    case 3 => b / 8 % 2
    case 4 => b / 16 % 2
    case 5 => b / 32 % 2
    case 6 => b / 64 % 2
    case _ => b / 128 % 2
  }

  /** Bit `k` of the input read as a string of bits, zero past its end. */
  function InputBit(data: bytes, k: nat): int {
    if k / 8 < |data| then BitOf(data[k / 8], 8, k % 8) else 0
  }

  /** Six bits of the input as a number. */
  function Group(data: bytes, i: nat): int {
    InputBit(data, 6 * i) * 32 + InputBit(data, 6 * i + 1) * 16 + InputBit(data, 6 * i + 2) * 8
    + InputBit(data, 6 * i + 3) * 4 + InputBit(data, 6 * i + 4) * 2 + InputBit(data, 6 * i + 5)
  }

  lemma ByteFromBits(b: byte)
    ensures b / 4 == BitOf(b, 8, 0) * 32 + BitOf(b, 8, 1) * 16 + BitOf(b, 8, 2) * 8 + BitOf(b, 8, 3) * 4 + BitOf(b, 8, 4) * 2 + BitOf(b, 8, 5)
    ensures b % 4 == BitOf(b, 8, 6) * 2 + BitOf(b, 8, 7)
    ensures b / 16 == BitOf(b, 8, 0) * 8 + BitOf(b, 8, 1) * 4 + BitOf(b, 8, 2) * 2 + BitOf(b, 8, 3)
    ensures b % 16 == BitOf(b, 8, 4) * 8 + BitOf(b, 8, 5) * 4 + BitOf(b, 8, 6) * 2 + BitOf(b, 8, 7)
    ensures b / 64 == BitOf(b, 8, 0) * 2 + BitOf(b, 8, 1)
    ensures b % 64 == BitOf(b, 8, 2) * 32 + BitOf(b, 8, 3) * 16 + BitOf(b, 8, 4) * 8 + BitOf(b, 8, 5) * 4 + BitOf(b, 8, 6) * 2 + BitOf(b, 8, 7)
  {
    HalvesOf(b);
  }

  lemma HalvesOf(b: byte)
    ensures b / 4 == b / 2 / 2 && b / 8 == b / 4 / 2 && b / 16 == b / 8 / 2
    ensures b / 32 == b / 16 / 2 && b / 64 == b / 32 / 2 && b / 128 == b / 64 / 2 && 0 <= b / 128 < 2
  {
  }

  // ----- Encoding -----

  lemma GroupsOfThree(a: byte, b: byte, c: byte, rest: bytes)
    ensures var x, data := Sextets(a, b, c), [a, b, c] + rest;
            x[0] == Group(data, 0) && x[1] == Group(data, 1) && x[2] == Group(data, 2) && x[3] == Group(data, 3)
  {
    hide Sextets, BitOf;
    SextetsParts(a, b, c);
    ByteFromBits(a);
    ByteFromBits(b);
    ByteFromBits(c);
    FirstBits(a, b, c, rest);
  }

  lemma FirstBits(a: byte, b: byte, c: byte, rest: bytes)
    ensures var data := [a, b, c] + rest;
            && (forall k :: 0 <= k < 8 ==> InputBit(data, k) == BitOf(a, 8, k))
            && (forall k :: 8 <= k < 16 ==> InputBit(data, k) == BitOf(b, 8, k - 8))
            && (forall k :: 16 <= k < 24 ==> InputBit(data, k) == BitOf(c, 8, k - 16))
  {
    hide BitOf;
  }

  lemma BitsAfterThree(data: bytes, k: nat)
    requires 3 <= |data| && 24 <= k
    ensures InputBit(data, k) == InputBit(data[3..], k - 24)
  {
    hide BitOf;
    assert k / 8 == (k - 24) / 8 + 3 && k % 8 == (k - 24) % 8;
  }

  lemma GroupsAfterThree(data: bytes, i: nat)
    requires 3 <= |data| && 4 <= i
    ensures Group(data, i) == Group(data[3..], i - 4)
  {
    hide InputBit;
    BitsAfterThree(data, 6 * i);
    BitsAfterThree(data, 6 * i + 1);
    BitsAfterThree(data, 6 * i + 2);
    BitsAfterThree(data, 6 * i + 3);
    BitsAfterThree(data, 6 * i + 4);
    BitsAfterThree(data, 6 * i + 5);
  }

  /** Zero bytes at the end are the zero bits past the end. */
  lemma GroupWithZeros(data: bytes, zeros: bytes, i: nat)
    requires forall k :: 0 <= k < |zeros| ==> zeros[k] == 0
    ensures Group(data + zeros, i) == Group(data, i)
  {
    hide InputBit;
    BitWithZeros(data, zeros, 6 * i);
    BitWithZeros(data, zeros, 6 * i + 1);
    BitWithZeros(data, zeros, 6 * i + 2);
    BitWithZeros(data, zeros, 6 * i + 3);
    BitWithZeros(data, zeros, 6 * i + 4);
    BitWithZeros(data, zeros, 6 * i + 5);
  }

  lemma BitWithZeros(data: bytes, zeros: bytes, k: nat)
    requires forall j :: 0 <= j < |zeros| ==> zeros[j] == 0
    ensures InputBit(data + zeros, k) == InputBit(data, k)
  {
  }

  /** The sextets of an encoding are the six-bit groups of the input. */
  lemma {:induction false} SextetsAreGroups(data: bytes, i: nat)
    requires i < |EncodedSextets(data)|
    ensures EncodedSextets(data)[i] == Group(data, i)
    decreases |data|
  {
    hide Sextets, Group;
    if |data| < 3 {
      var zeros := if |data| == 1 then [0, 0] else [0];
      var full := data + zeros;
      assert full == [full[0], full[1], full[2]] + [];
      GroupsOfThree(full[0], full[1], full[2], []);
      GroupWithZeros(data, zeros, i);
    } else {
      assert data == [data[0], data[1], data[2]] + data[3..];
      if i < 4 {
        GroupsOfThree(data[0], data[1], data[2], data[3..]);
      } else {
        SextetsAreGroups(data[3..], i - 4);
        GroupsAfterThree(data, i);
      }
    }
  }

  /** The characters of an encoding before any padding: one per six bits begun. */
  function GroupCount(n: nat): nat {
    (8 * n + 5) / 6
  }

  lemma CountOf(q: nat, r: nat)
    requires r < 3
    ensures GroupCount(3 * q + r) == 4 * q + (if r == 0 then 0 else r + 1)
    ensures (4 - (4 * q + (if r == 0 then 0 else r + 1)) % 4) % 4 == if r == 0 then 0 else 3 - r
  {
    assert 8 * (3 * q + r) + 5 == 6 * (4 * q) + (8 * r + 5);
    if r == 0 {
    } else if r == 1 {
    } else {
    }
  }

  lemma CountIs(data: bytes)
    ensures |EncodedSextets(data)| == GroupCount(|data|)
    ensures PadCount(|data|) == (4 - GroupCount(|data|) % 4) % 4
  {
    hide EncodedSextets, GroupCount;
    EncodedSextetsLength(data);
    CountOf(|data| / 3, |data| % 3);
  }

  lemma EncodedCharacter(data: bytes, v: Variant, i: nat)
    requires i < GroupCount(|data|)
    ensures i < |Encode(data, v)| && 0 <= Group(data, i) < 64 && Encode(data, v)[i] == Table(v)[Group(data, i)] as int
  {
    hide *;
    EncodeIsSextets(data, v);
    CountIs(data);
    SextetsAreGroups(data, i);
    LetterIsInTable(EncodedSextets(data)[i], v);
    LetterOfSextet(EncodedSextets(data), Padding(PadCount(|data|), v), v, i);
  }

  lemma LetterOfSextet(x: seq<sextet>, padding: bytes, v: Variant, i: nat)
    requires i < |x|
    ensures i < |Letters(x, v) + padding| && (Letters(x, v) + padding)[i] == Letter(x[i], v)
  {
    hide Letter;
  }

  /** What follows the characters of the groups, and how long the text is. */
  lemma EncodedPadding(data: bytes, v: Variant)
    ensures var n, s := GroupCount(|data|), Encode(data, v);
            && n <= |s| && (forall i :: n <= i < |s| ==> s[i] == '=' as int)
            && |s| == match v
                      case Standard | Url => n + (4 - n % 4) % 4
                      case StandardRaw | UrlRaw => n
  {
    hide Encode, EncodedSextets, Letter, GroupCount, PadCount;
    EncodeIsSextets(data, v);
    CountIs(data);
  }

  /** Every character of an encoding is the one that the variant's table has for six
      bits of the input, and the padded variants fill up the last four with `=`. */
  lemma EncodedByTable(data: bytes, v: Variant)
    ensures var n, s := GroupCount(|data|), Encode(data, v);
            && n <= |s| && (forall i :: 0 <= i < n ==> 0 <= Group(data, i) < 64 && s[i] == Table(v)[Group(data, i)] as int)
            && (forall i :: n <= i < |s| ==> s[i] == '=' as int)
            && |s| == match v
                      case Standard | Url => n + (4 - n % 4) % 4
                      case StandardRaw | UrlRaw => n
  {
    hide *;
    EncodedPadding(data, v);
    forall i | 0 <= i < GroupCount(|data|)
      ensures 0 <= Group(data, i) < 64 && Encode(data, v)[i] == Table(v)[Group(data, i)] as int
    {
      EncodedCharacter(data, v, i);
    }
  }

  // ----- Decoding -----

  /** A text that the variant allows, said with its table. */
  ghost predicate AllowedByTable(s: bytes, v: Variant, k: nat) {
    && k <= |s| && (forall i :: 0 <= i < k ==> Position(Table(v), s[i]) < 64) && (forall i :: k <= i < |s| ==> s[i] == '=' as int)
    && match v
       case Standard | Url => |s| % 4 == 0 && |s| - k <= 2
       case StandardRaw | UrlRaw => |s| == k && k % 4 != 1
  }

  /** The well-formed texts, which the check accepts, are those the table allows. */
  lemma WellFormedByTable(s: bytes, v: Variant)
    ensures WellFormed(s, v) <==> exists k :: AllowedByTable(s, v, k)
    ensures WellFormed(s, v) ==> AllowedByTable(s, v, BodyLength(s))
  {
    hide Table, Position, Value, BodyLength;
    forall c: byte ensures Position(Table(v), c) < 64 <==> InAlphabet(c, v) {
      PositionIsValue(c, v);
    }
    if WellFormed(s, v) {
      var k := BodyLength(s);
      forall i | 0 <= i < k ensures Position(Table(v), s[i]) < 64 {
        assert s[i] == s[..k][i];
      }
      forall i | k <= i < |s| ensures s[i] == PAD {
        assert s[i] == s[k..][i - k];
      }
      assert AllowedByTable(s, v, k);
    }
    if k :| AllowedByTable(s, v, k) {
      forall i | 0 <= i < k ensures s[i] != PAD {
        LetterOfValue(s[i], v);
      }
      BodyLengthIs(s, k);
    }
  }

  lemma BitsAre(b: byte)
    ensures BitOf(b, 8, 0) == b / 128 % 2 && BitOf(b, 8, 1) == b / 64 % 2 && BitOf(b, 8, 2) == b / 32 % 2 && BitOf(b, 8, 3) == b / 16 % 2
    ensures BitOf(b, 8, 4) == b / 8 % 2 && BitOf(b, 8, 5) == b / 4 % 2 && BitOf(b, 8, 6) == b / 2 % 2 && BitOf(b, 8, 7) == b % 2
  {
  }

  lemma BitsOfSum(b: byte, c0: int, c1: int, c2: int, c3: int, c4: int, c5: int, c6: int, c7: int)
    requires 0 <= c0 <= 1 && 0 <= c1 <= 1 && 0 <= c2 <= 1 && 0 <= c3 <= 1 && 0 <= c4 <= 1 && 0 <= c5 <= 1 && 0 <= c6 <= 1 && 0 <= c7 <= 1
    requires b == c0 * 128 + c1 * 64 + c2 * 32 + c3 * 16 + c4 * 8 + c5 * 4 + c6 * 2 + c7
    ensures BitOf(b, 8, 0) == c0 && BitOf(b, 8, 1) == c1 && BitOf(b, 8, 2) == c2 && BitOf(b, 8, 3) == c3
    ensures BitOf(b, 8, 4) == c4 && BitOf(b, 8, 5) == c5 && BitOf(b, 8, 6) == c6 && BitOf(b, 8, 7) == c7
  {
    hide BitOf;
    BitsAre(b);
    var h7 := c0 * 64 + c1 * 32 + c2 * 16 + c3 * 8 + c4 * 4 + c5 * 2 + c6;
    var h6 := c0 * 32 + c1 * 16 + c2 * 8 + c3 * 4 + c4 * 2 + c5;
    var h5 := c0 * 16 + c1 * 8 + c2 * 4 + c3 * 2 + c4;
    var h4 := c0 * 8 + c1 * 4 + c2 * 2 + c3;
    var h3 := c0 * 4 + c1 * 2 + c2;
    HalvesOf(b);
    Halve(b, h7, c7);
    Halve(h7, h6, c6);
    Halve(h6, h5, c5);
    Halve(h5, h4, c4);
    Halve(h4, h3, c3);
    Halve(h3, c0 * 2 + c1, c2);
    Halve(c0 * 2 + c1, c0, c1);
    Halve(c0, 0, c0);
  }

  lemma Halve(n: int, hi: int, lo: int)
    requires n == hi * 2 + lo && 0 <= lo <= 1
    ensures n / 2 == hi && n % 2 == lo
  {
  }

  lemma SextetFromBits(n: sextet)
    ensures forall k :: 0 <= k < 6 ==> 0 <= BitOf(n, 6, k) <= 1
    ensures n == BitOf(n, 6, 0) * 32 + BitOf(n, 6, 1) * 16 + BitOf(n, 6, 2) * 8 + BitOf(n, 6, 3) * 4 + BitOf(n, 6, 4) * 2 + BitOf(n, 6, 5)
    ensures n / 16 == BitOf(n, 6, 0) * 2 + BitOf(n, 6, 1)
    ensures n % 16 == BitOf(n, 6, 2) * 8 + BitOf(n, 6, 3) * 4 + BitOf(n, 6, 4) * 2 + BitOf(n, 6, 5)
    ensures n / 4 == BitOf(n, 6, 0) * 8 + BitOf(n, 6, 1) * 4 + BitOf(n, 6, 2) * 2 + BitOf(n, 6, 3)
    ensures n % 4 == BitOf(n, 6, 4) * 2 + BitOf(n, 6, 5)
  {
    HalvesOf(n);
  }

  /** Bit `k` of six-bit values in a row. */
  ghost function StreamBit(x: seq<sextet>, k: nat): int
    requires k < 6 * |x|
  {
    BitOf(x[k / 6], 6, k % 6)
  }

  lemma OctetBits(x: seq<sextet>, j: nat, b: nat)
    requires |x| == 4 && j < 3 && b < 8
    ensures BitOf(Octets(x[0], x[1], x[2], x[3])[j], 8, b) == StreamBit(x, 8 * j + b)
  {
    hide Octets, BitOf;
    assert forall k :: 0 <= k < 6 ==> StreamBit(x, k) == BitOf(x[0], 6, k) && StreamBit(x, k + 6) == BitOf(x[1], 6, k)
                                      && StreamBit(x, k + 12) == BitOf(x[2], 6, k) && StreamBit(x, k + 18) == BitOf(x[3], 6, k);
    hide StreamBit;
    OctetsParts(x[0], x[1], x[2], x[3]);
    SextetFromBits(x[0]);
    SextetFromBits(x[1]);
    SextetFromBits(x[2]);
    SextetFromBits(x[3]);
    var o := Octets(x[0], x[1], x[2], x[3]);
    if j == 0 {
      BitsOfSum(o[0], BitOf(x[0], 6, 0), BitOf(x[0], 6, 1), BitOf(x[0], 6, 2), BitOf(x[0], 6, 3), BitOf(x[0], 6, 4), BitOf(x[0], 6, 5),
                BitOf(x[1], 6, 0), BitOf(x[1], 6, 1));
    } else if j == 1 {
      BitsOfSum(o[1], BitOf(x[1], 6, 2), BitOf(x[1], 6, 3), BitOf(x[1], 6, 4), BitOf(x[1], 6, 5), BitOf(x[2], 6, 0), BitOf(x[2], 6, 1),
                BitOf(x[2], 6, 2), BitOf(x[2], 6, 3));
    } else {
      BitsOfSum(o[2], BitOf(x[2], 6, 4), BitOf(x[2], 6, 5), BitOf(x[3], 6, 0), BitOf(x[3], 6, 1), BitOf(x[3], 6, 2), BitOf(x[3], 6, 3),
                BitOf(x[3], 6, 4), BitOf(x[3], 6, 5));
    }
  }

  lemma SpelledFits(n: nat, j: nat, b: nat)
    requires n % 4 != 1 && j < SpelledLength(n) && b < 8
    ensures 8 * j + b < 6 * n
  {
  }

  /** The bytes that six-bit values spell have their bits, in order. */
  lemma {:induction false} SpelledBits(x: seq<sextet>, j: nat, b: nat)
    requires |x| % 4 != 1 && j < |Spell(x)| && b < 8
    ensures 8 * j + b < 6 * |x| && BitOf(Spell(x)[j], 8, b) == StreamBit(x, 8 * j + b)
    decreases |x|
  {
    hide Octets, BitOf, SpelledLength;
    SpellLength(x);
    SpelledFits(|x|, j, b);
    if |x| < 4 {
      var zeros: seq<sextet> := if |x| == 2 then [0, 0] else [0];
      OctetBits(x + zeros, j, b);
    } else if j < 3 {
      OctetBits(x[..4], j, b);
      SpellStep(x);
    } else {
      LessFour(|x|);
      SpellStep(x);
      SpelledBits(x[4..], j - 3, b);
      assert (8 * j + b) / 6 == (8 * (j - 3) + b) / 6 + 4 && (8 * j + b) % 6 == (8 * (j - 3) + b) % 6;
    }
  }

  /** Bit `i` of the text: the bits of the positions its characters have in the table. */
  ghost function TextBit(s: bytes, v: Variant, i: nat): int
    requires i < 6 * |s| && Position(Table(v), s[i / 6]) < 64
  {
    BitOf(Position(Table(v), s[i / 6]), 6, i % 6)
  }

  /** A decoding is the bits of the text, in bytes; bits left over are dropped. */
  lemma DecodedByTable(s: bytes, v: Variant, k: nat)
    requires AllowedByTable(s, v, k)
    ensures WellFormed(s, v) && |Decode(s, v)| == 6 * k / 8
    ensures forall j, b :: 0 <= j < 6 * k / 8 && 0 <= b < 8 ==> 8 * j + b < 6 * k && BitOf(Decode(s, v)[j], 8, b) == TextBit(s, v, 8 * j + b)
  {
    hide Table, Position, Value, BodyLength, BitOf, Spell;
    WellFormedByTable(s, v);
    assert WellFormed(s, v);
    BodyOf(s, v, k);
    var x := Values(s[..k], v);
    PaddingIs(s, v);
    SpellLength(x);
    SpelledIsWhole(k);
    forall j, b | 0 <= j < 6 * k / 8 && 0 <= b < 8
      ensures 8 * j + b < 6 * k && BitOf(Decode(s, v)[j], 8, b) == TextBit(s, v, 8 * j + b)
    {
      SpelledBits(x, j, b);
      PositionIsValue(s[(8 * j + b) / 6], v);
    }
  }

  lemma SpelledIsWhole(k: nat)
    requires k % 4 != 1
    ensures SpelledLength(k) == 6 * k / 8
  {
  }

  lemma BodyOf(s: bytes, v: Variant, k: nat)
    requires AllowedByTable(s, v, k)
    ensures BodyLength(s) == k
  {
    hide Table, Position, Value, BodyLength;
    forall i | 0 <= i < k ensures s[i] != PAD {
      PositionIsValue(s[i], v);
      LetterOfValue(s[i], v);
    }
    BodyLengthIs(s, k);
  }
}
