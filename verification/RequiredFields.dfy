/** Counting a map's required fields: a mask of them, cached per map, and a
    population count by masks, shifts and one multiplication. */
module RequiredFields {
  const WORD_BITS: nat := 64

  // ----- The population count -----

  /** Bits added up in groups of two, four and eight. */
  function Octets(v: bv64): bv64 {
    var pairs := v - ((v >> 1) & 0x5555_5555_5555_5555);
    var nibbles := (pairs & 0x3333_3333_3333_3333) + ((pairs >> 2) & 0x3333_3333_3333_3333);
    (nibbles + (nibbles >> 4)) & 0x0F0F_0F0F_0F0F_0F0F
  }

  function Popcount(v: bv64): bv64 {
    Product(Octets(v))
  }

  function Product(v: bv64): bv64 {
    (v * 0x0101_0101_0101_0101) >> 56
  }

  function Bit(v: bv64): nat {
    if v & 1 == 1 then 1 else 0
  }

  /** The set bits among the lowest `n`. */
  ghost function BitCount(v: bv64, n: nat): nat {
    if n == 0 then 0 else Bit(v) + BitCount(v >> 1, n - 1)
  }

  /** The set bits of the lowest octet. */
  function EightBits(v: bv64): nat {
    Bit(v) + Bit(v >> 1) + Bit(v >> 2) + Bit(v >> 3) + Bit(v >> 4) + Bit(v >> 5) + Bit(v >> 6) + Bit(v >> 7)
  }

  // Each octet of the groups counts the bits of that octet.

  lemma Octet0(v: bv64)
    ensures (Octets(v) & 15) as nat == EightBits(v)
  {
  }

  lemma Octet1(v: bv64)
    ensures ((Octets(v) >> 8) & 15) as nat == EightBits(v >> 8)
  {
  }

  lemma Octet2(v: bv64)
    ensures ((Octets(v) >> 16) & 15) as nat == EightBits(v >> 16)
  {
  }

  lemma Octet3(v: bv64)
    ensures ((Octets(v) >> 24) & 15) as nat == EightBits(v >> 24)
  {
  }

  lemma Octet4(v: bv64)
    ensures ((Octets(v) >> 32) & 15) as nat == EightBits(v >> 32)
  {
  }

  lemma Octet5(v: bv64)
    ensures ((Octets(v) >> 40) & 15) as nat == EightBits(v >> 40)
  {
  }

  lemma Octet6(v: bv64)
    ensures ((Octets(v) >> 48) & 15) as nat == EightBits(v >> 48)
  {
  }

  lemma Octet7(v: bv64)
    ensures ((Octets(v) >> 56) & 15) as nat == EightBits(v >> 56)
  {
  }

  // The multiplication adds the octets up in its top one.

  lemma Sixteens(a: bv64)
    requires a & 0xE0E0_E0E0_E0E0_E0E0 == 0
    ensures var b := a + (a << 16);
            && b & 0xC0C0_C0C0_C0C0_C0C0 == 0
            && b >> 56 == (a >> 56) + ((a >> 40) & 255) && (b >> 24) & 255 == ((a >> 24) & 255) + ((a >> 8) & 255)
  {
  }

  lemma ThirtyTwos(b: bv64)
    requires b & 0xC0C0_C0C0_C0C0_C0C0 == 0
    ensures (b + (b << 32)) >> 56 == (b >> 56) + ((b >> 24) & 255)
  {
  }

  lemma TopOctet(v: bv64)
    requires v & 0xF0F0_F0F0_F0F0_F0F0 == 0
    ensures (v * 0x0101_0101_0101_0101) >> 56 ==
            ((v >> 56) & 15) + ((v >> 48) & 15) + ((v >> 40) & 15) + ((v >> 32) & 15) + ((v >> 24) & 15) + ((v >> 16) & 15) + ((v >> 8) & 15) + (v & 15)
  {
    var a := v + (v << 8);
    var b := a + (a << 16);
    Sixteens(a);
    ThirtyTwos(b);
  }

  lemma SmallSum(a: bv64, b: bv64, c: bv64, d: bv64, e: bv64, f: bv64, g: bv64, h: bv64)
    ensures ((h & 15) + (g & 15) + (f & 15) + (e & 15) + (d & 15) + (c & 15) + (b & 15) + (a & 15)) as nat
            == (h & 15) as nat + (g & 15) as nat + (f & 15) as nat + (e & 15) as nat
               + (d & 15) as nat + (c & 15) as nat + (b & 15) as nat + (a & 15) as nat
  {
  }

  lemma RawProductSums(v: bv64)
    requires v & 0xF0F0_F0F0_F0F0_F0F0 == 0
    ensures ((v * 0x0101_0101_0101_0101) >> 56) as nat ==
            ((v >> 56) & 15) as nat + ((v >> 48) & 15) as nat + ((v >> 40) & 15) as nat + ((v >> 32) & 15) as nat
            + ((v >> 24) & 15) as nat + ((v >> 16) & 15) as nat + ((v >> 8) & 15) as nat + (v & 15) as nat
  {
    TopOctet(v);
    SmallSum(v, v >> 8, v >> 16, v >> 24, v >> 32, v >> 40, v >> 48, v >> 56);
  }

  lemma ProductIs(v: bv64)
    ensures Product(v) as nat == ((v * 0x0101_0101_0101_0101) >> 56) as nat
  {
  }

  lemma ProductSums(v: bv64)
    requires v & 0xF0F0_F0F0_F0F0_F0F0 == 0
    ensures Product(v) as nat ==
            ((v >> 56) & 15) as nat + ((v >> 48) & 15) as nat + ((v >> 40) & 15) as nat + ((v >> 32) & 15) as nat
            + ((v >> 24) & 15) as nat + ((v >> 16) & 15) as nat + ((v >> 8) & 15) as nat + (v & 15) as nat
  {
    hide Product;
    ProductIs(v);
    RawProductSums(v);
  }

  lemma OctetsAreSmall(v: bv64)
    ensures Octets(v) & 0xF0F0_F0F0_F0F0_F0F0 == 0
  {
  }

  lemma PopcountIsOctetSum(v: bv64)
    ensures Popcount(v) as nat ==
            EightBits(v) + EightBits(v >> 8) + EightBits(v >> 16) + EightBits(v >> 24)
            + EightBits(v >> 32) + EightBits(v >> 40) + EightBits(v >> 48) + EightBits(v >> 56)
  {
    hide Octets, EightBits, Product;
    OctetsAreSmall(v);
    ProductSums(Octets(v));
    Octet0(v);
    Octet1(v);
    Octet2(v);
    Octet3(v);
    Octet4(v);
    Octet5(v);
    Octet6(v);
    Octet7(v);
  }

  lemma CountEight(v: bv64, n: nat)
    ensures BitCount(v, n + 8) == EightBits(v) + BitCount(v >> 8, n)
  {
    hide Bit;
    assert BitCount(v, n + 8) == Bit(v) + BitCount(v >> 1, n + 7);
    assert BitCount(v >> 1, n + 7) == Bit(v >> 1) + BitCount(v >> 2, n + 6);
    assert BitCount(v >> 2, n + 6) == Bit(v >> 2) + BitCount(v >> 3, n + 5);
    assert BitCount(v >> 3, n + 5) == Bit(v >> 3) + BitCount(v >> 4, n + 4);
    assert BitCount(v >> 4, n + 4) == Bit(v >> 4) + BitCount(v >> 5, n + 3);
    assert BitCount(v >> 5, n + 3) == Bit(v >> 5) + BitCount(v >> 6, n + 2);
    assert BitCount(v >> 6, n + 2) == Bit(v >> 6) + BitCount(v >> 7, n + 1);
    assert BitCount(v >> 7, n + 1) == Bit(v >> 7) + BitCount(v >> 8, n);
  }

  /** The set bits of the lowest `k` octets. */
  ghost function OctetBits(v: bv64, k: nat): nat {
    if k == 0 then 0 else EightBits(v) + OctetBits(v >> 8, k - 1)
  }

  lemma CountNone(v: bv64)
    ensures BitCount(v, 0) == 0
  {
  }

  lemma {:induction false} CountOctets(v: bv64, k: nat)
    ensures BitCount(v, 8 * k) == OctetBits(v, k)
    decreases k
  {
    hide EightBits, BitCount;
    if k == 0 {
      CountNone(v);
    } else {
      CountEight(v, 8 * (k - 1));
      CountOctets(v >> 8, k - 1);
    }
  }

  lemma OctetBitsAre(v: bv64)
    ensures OctetBits(v, 8) ==
            EightBits(v) + EightBits(v >> 8) + EightBits(v >> 16) + EightBits(v >> 24)
            + EightBits(v >> 32) + EightBits(v >> 40) + EightBits(v >> 48) + EightBits(v >> 56)
  {
    hide EightBits;
    assert OctetBits(v, 8) == EightBits(v) + OctetBits(v >> 8, 7);
    assert OctetBits(v >> 8, 7) == EightBits(v >> 8) + OctetBits(v >> 16, 6);
    assert OctetBits(v >> 16, 6) == EightBits(v >> 16) + OctetBits(v >> 24, 5);
    assert OctetBits(v >> 24, 5) == EightBits(v >> 24) + OctetBits(v >> 32, 4);
    assert OctetBits(v >> 32, 4) == EightBits(v >> 32) + OctetBits(v >> 40, 3);
    assert OctetBits(v >> 40, 3) == EightBits(v >> 40) + OctetBits(v >> 48, 2);
    assert OctetBits(v >> 48, 2) == EightBits(v >> 48) + OctetBits(v >> 56, 1);
  }

  /** The population count is the number of set bits. */
  lemma PopcountIsBitCount(v: bv64)
    ensures Popcount(v) as nat == BitCount(v, WORD_BITS)
  {
    hide Popcount, EightBits, BitCount, OctetBits;
    PopcountIsOctetSum(v);
    OctetBitsAre(v);
    CountOctets(v, 8);
  }

  // ----- Masks -----

  /** Bit `k` of a word says whether `flags[k]` holds. */
  ghost function Word(flags: seq<bool>): bv64 {
    if flags == [] then 0 else (Word(flags[1..]) << 1) | FlagBit(flags[0])
  }

  function FlagBit(b: bool): bv64 {
    if b then 1 else 0
  }

  /** One shifted left `i` times. */
  function OneAt(i: nat): bv64 {
    if i == 0 then 1 else OneAt(i - 1) << 1
  }

  ghost function Trues(flags: seq<bool>): nat {
    if flags == [] then 0 else (if flags[0] then 1 else 0) + Trues(flags[1..])
  }

  /** A flag in front of a word. */
  function Front(w: bv64, b: bool): bv64 {
    (w << 1) | FlagBit(b)
  }

  lemma WordIs(flags: seq<bool>)
    requires flags != []
    ensures Word(flags) == Front(Word(flags[1..]), flags[0])
  {
  }

  lemma WordOfNothing()
    ensures Word([]) == 0
  {
  }

  lemma FrontOfNothing(b: bool)
    ensures Front(0, b) == FlagBit(b)
  {
  }

  lemma LowestOne()
    ensures OneAt(0) == 1
  {
  }

  /** A flag behind a word is one bit more. */
  function Behind(w: bv64, n: nat, b: bool): bv64 {
    if b then w | OneAt(n) else w
  }

  lemma BehindNothing(b: bool)
    ensures Behind(0, 0, b) == FlagBit(b)
  {
    LowestOne();
    hide OneAt;
  }

  lemma FrontThenBehind(w: bv64, n: nat, first: bool, b: bool)
    ensures Front(Behind(w, n, b), first) == Behind(Front(w, first), n + 1, b)
  {
    assert OneAt(n + 1) == OneAt(n) << 1;
    hide OneAt, FlagBit;
    ShiftOr(w, OneAt(n), FlagBit(first));
  }

  lemma {:induction false} WordAppend(flags: seq<bool>, b: bool)
    ensures Word(flags + [b]) == Behind(Word(flags), |flags|, b)
  {
    hide *;
    var more := flags + [b];
    if flags == [] {
      assert more == [b] && more[1..] == [];
      WordOfNothing();
      WordIs(more);
      FrontOfNothing(b);
      BehindNothing(b);
    } else {
      assert more[1..] == flags[1..] + [b];
      WordAppend(flags[1..], b);
      WordIs(flags);
      WordIs(more);
      FrontThenBehind(Word(flags[1..]), |flags| - 1, flags[0], b);
    }
  }

  function WithBit(v: bv64, i: nat): bv64 {
    v | OneAt(i)
  }

  lemma WordSet(flags: seq<bool>)
    ensures Word(flags + [true]) == WithBit(Word(flags), |flags|)
  {
    hide Word, OneAt;
    WordAppend(flags, true);
  }

  lemma WordUnset(flags: seq<bool>)
    ensures Word(flags + [false]) == Word(flags)
  {
    hide Word, OneAt;
    WordAppend(flags, false);
  }

  lemma ShiftOr(x: bv64, y: bv64, z: bv64)
    ensures ((x | y) << 1) | z == ((x << 1) | z) | (y << 1)
  {
  }

  /** A word shifted right `k` times. */
  ghost function Shifted(x: bv64, k: nat): bv64 {
    if k == 0 then x else Shifted(x >> 1, k - 1)
  }

  /** All bits but the top `k`. */
  ghost function LowMask(k: nat): bv64 {
    Shifted(0xFFFF_FFFF_FFFF_FFFF, k)
  }

  lemma ShiftedEight(x: bv64, k: nat)
    ensures Shifted(x, k + 8) == Shifted(x >> 8, k)
  {
    assert Shifted(x, k + 8) == Shifted(x >> 1, k + 7);
    assert Shifted(x >> 1, k + 7) == Shifted(x >> 2, k + 6);
    assert Shifted(x >> 2, k + 6) == Shifted(x >> 3, k + 5);
    assert Shifted(x >> 3, k + 5) == Shifted(x >> 4, k + 4);
    assert Shifted(x >> 4, k + 4) == Shifted(x >> 5, k + 3);
    assert Shifted(x >> 5, k + 3) == Shifted(x >> 6, k + 2);
    assert Shifted(x >> 6, k + 2) == Shifted(x >> 7, k + 1);
    assert Shifted(x >> 7, k + 1) == Shifted(x >> 8, k + 0);
  }

  lemma LowMaskLast()
    ensures LowMask(63) == 1
  {
    ShiftedEight(0xFFFF_FFFF_FFFF_FFFF, 55);
    ShiftedEight(0xFF_FFFF_FFFF_FFFF, 47);
    ShiftedEight(0xFFFF_FFFF_FFFF, 39);
    ShiftedEight(0xFF_FFFF_FFFF, 31);
    ShiftedEight(0xFFFF_FFFF, 23);
    ShiftedEight(0xFF_FFFF, 15);
    ShiftedEight(0xFFFF, 7);
    assert Shifted(0xFF, 7) == Shifted(0x7F, 6);
    assert Shifted(0x7F, 6) == Shifted(0x3F, 5);
    assert Shifted(0x3F, 5) == Shifted(0x1F, 4);
    assert Shifted(0x1F, 4) == Shifted(0xF, 3);
    assert Shifted(0xF, 3) == Shifted(7, 2);
    assert Shifted(7, 2) == Shifted(3, 1);
  }

  lemma {:induction false} ShiftedOnce(x: bv64, k: nat)
    ensures Shifted(x, k + 1) == Shifted(x, k) >> 1
    decreases k
  {
    if k != 0 {
      ShiftedOnce(x >> 1, k - 1);
    }
  }

  /** The bits of `x` are among those of `m`. */
  predicate Within(x: bv64, m: bv64) {
    x & !m == 0
  }

  lemma WithinAll(x: bv64)
    ensures Within(x, 0xFFFF_FFFF_FFFF_FFFF)
  {
  }

  lemma WithinShifted(x: bv64, y: bv64)
    requires Within(x, y)
    ensures Within(x >> 1, y >> 1)
  {
  }

  lemma {:induction false} LowMasksNest(j: nat, k: nat)
    requires k <= j
    ensures Within(LowMask(j), LowMask(k))
  {
    hide Within;
    if k == 0 {
      WithinAll(LowMask(j));
    } else {
      hide Shifted;
      LowMasksNest(j - 1, k - 1);
      ShiftedOnce(0xFFFF_FFFF_FFFF_FFFF, j - 1);
      ShiftedOnce(0xFFFF_FFFF_FFFF_FFFF, k - 1);
      WithinShifted(LowMask(j - 1), LowMask(k - 1));
    }
  }

  predicate Odd(x: bv64) {
    x & 1 == 1
  }

  lemma OneWithin(m: bv64)
    requires Within(1, m)
    ensures Odd(m)
  {
  }

  lemma LowMaskOdd(k: nat)
    requires k < 64
    ensures Odd(LowMask(k))
  {
    hide LowMask, Within, Odd;
    LowMaskLast();
    LowMasksNest(63, k);
    OneWithin(LowMask(k));
  }

  lemma WordNil()
    ensures Within(Word([]), LowMask(64))
  {
  }

  /** A word of `n` flags uses its lowest `n` bits only. */
  lemma {:induction false} WordFits(flags: seq<bool>)
    requires |flags| <= 64
    ensures Within(Word(flags), LowMask(64 - |flags|))
  {
    hide *;
    if flags == [] {
      WordNil();
    } else {
      var m := LowMask(64 - |flags|);
      WordFits(flags[1..]);
      LowMaskOdd(64 - |flags|);
      LowMaskNext(64 - |flags|);
      WordIs(flags);
      FrontFits(Word(flags[1..]), m, flags[0]);
    }
  }

  function Halved(x: bv64): bv64 {
    x >> 1
  }

  lemma LowMaskNext(k: nat)
    ensures LowMask(k + 1) == Halved(LowMask(k))
  {
    hide Shifted;
    ShiftedOnce(0xFFFF_FFFF_FFFF_FFFF, k);
  }

  lemma RawFrontFits(w: bv64, m: bv64, c: bv64)
    requires w & !(m >> 1) == 0 && m & 1 == 1 && (c == 0 || c == 1)
    ensures ((w << 1) | c) & !m == 0
  {
  }

  lemma FrontFits(w: bv64, m: bv64, b: bool)
    requires Within(w, Halved(m)) && Odd(m)
    ensures Within(Front(w, b), m)
  {
    RawFrontFits(w, m, FlagBit(b));
  }

  /** Reading the lowest bit of a word and shifting it out. */
  lemma FrontHead(w: bv64, m: bv64, b: bool)
    requires Within(w, Halved(m))
    ensures Bit(Front(w, b)) == (if b then 1 else 0) && Halved(Front(w, b)) == w
  {
  }

  lemma WordHead(flags: seq<bool>)
    requires 0 < |flags| <= 64
    ensures Bit(Word(flags)) == (if flags[0] then 1 else 0) && Halved(Word(flags)) == Word(flags[1..])
  {
    hide *;
    WordFits(flags[1..]);
    LowMaskNext(64 - |flags|);
    WordIs(flags);
    FrontHead(Word(flags[1..]), LowMask(64 - |flags|), flags[0]);
  }

  lemma CountHead(v: bv64, n: nat)
    requires 0 < n
    ensures BitCount(v, n) == Bit(v) + BitCount(Halved(v), n - 1)
  {
    hide Bit;
  }

  lemma {:induction false} CountWord(flags: seq<bool>, n: nat)
    requires |flags| <= n <= 64
    ensures BitCount(Word(flags), n) == Trues(flags)
  {
    if flags == [] {
      CountZero(n);
    } else {
      hide Word, Bit, BitCount, Halved;
      WordHead(flags);
      CountHead(Word(flags), n);
      CountWord(flags[1..], n - 1);
    }
  }

  lemma {:induction false} CountZero(n: nat)
    ensures BitCount(0, n) == 0
  {
    if n != 0 {
      CountZero(n - 1);
    }
  }

  // ----- The cache -----

  const MASK_SLOTS: nat := 2

  /** The required masks a parser keeps, by the address of the map; zero is no
      address. `truth` is what the map at an address requires while it parses. */
  class MaskCache {
    const addresses: array<bv64>
    const masks: array<bv64>
    ghost const truth: bv64 -> seq<bool>

    ghost predicate Valid()
      reads addresses, masks
    {
      && addresses.Length == MASK_SLOTS && masks.Length == MASK_SLOTS && addresses != masks
      && forall i :: 0 <= i < MASK_SLOTS && addresses[i] != 0 ==> masks[i] == Word(truth(addresses[i]))
    }

    constructor (ghost truth: bv64 -> seq<bool>)
      ensures Valid() && this.truth == truth && fresh(addresses) && fresh(masks)
    {
      this.truth := truth;
      addresses := new bv64[MASK_SLOTS](_ => 0);
      masks := new bv64[MASK_SLOTS](_ => 0);
    }

    /** The mask of a map's required fields, if it has no more than a word of them. */
    method RequiredMask(address: bv64, required: seq<bool>) returns (mask: bv64)
      requires Valid() && address != 0 && truth(address) == required
      modifies addresses, masks
      ensures Valid() && mask == if |required| <= WORD_BITS then Word(required) else 0
    {
      hide Word, SlotOf;
      if WORD_BITS < |required| {
        return 0;
      }
      var slot := SlotOf(address);
      if addresses[slot] == address {
        return masks[slot];
      }
      mask := BuildMask(required);
      addresses[slot] := address;
      masks[slot] := mask;
    }

    /** The number of a map's required fields. */
    method RequiredCount(address: bv64, required: seq<bool>) returns (count: nat)
      requires Valid() && address != 0 && truth(address) == required
      modifies addresses, masks
      ensures Valid() && count == Trues(required)
    {
      hide Word, Trues, Popcount, BitCount;
      if |required| <= WORD_BITS {
        var mask := RequiredMask(address, required);
        PopcountIsBitCount(mask);
        CountWord(required, WORD_BITS);
        return Popcount(mask) as nat;
      }
      count := CountTrue(required);
    }
  }

  method BuildMask(required: seq<bool>) returns (mask: bv64)
    ensures mask == Word(required)
  {
    hide Word, WithBit;
    mask := 0;
    WordNothing(required);
    var i := 0;
    while i < |required|
      invariant 0 <= i <= |required| && mask == Word(required[..i])
    {
      assert required[..i] + [required[i]] == required[..i + 1];
      if required[i] {
        WordSet(required[..i]);
        mask := WithBit(mask, i);
      } else {
        WordUnset(required[..i]);
      }
      i := i + 1;
    }
    assert required[..i] == required;
  }

  method CountTrue(required: seq<bool>) returns (count: nat)
    ensures count == Trues(required)
  {
    count := 0;
    assert required[0..] == required;
    var i := 0;
    while i < |required|
      invariant 0 <= i <= |required| && count + Trues(required[i..]) == Trues(required)
    {
      assert required[i..][1..] == required[i + 1..];
      if required[i] {
        count := count + 1;
      }
      i := i + 1;
    }
  }

  function SlotOf(address: bv64): (r: nat)
    ensures r < MASK_SLOTS
  {
    LowBitSlot(address >> 4);
    ((address >> 4) & 1) as nat
  }

  lemma LowBitSlot(x: bv64)
    ensures (x & 1) as nat < 2
  {
  }

  lemma WordNothing(flags: seq<bool>)
    ensures Word(flags[..0]) == 0
  {
  }
}
